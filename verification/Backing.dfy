/** Backing sets (src/backing.rs): source ages propagated through derivations
    by an oldest-wins union, a per-class gate, and the un-resettable clock. */
module Backing {
  import opened Types
  import opened Sequences
  import opened OldestWins

  datatype BackingEntry = BackingEntry(sourceId: string, attestedAtSecs: U64, freshnessClass: string)
  {
    function AgeSecs(now: U64): U64 {
      SatSub(now, attestedAtSecs)
    }
  }

  type Entries = map<string, BackingEntry>

  function AttestedAt(e: BackingEntry): U64 {
    e.attestedAtSecs
  }

  function SourceId(e: BackingEntry): string {
    e.sourceId
  }

  function Inserted(m: Entries, e: BackingEntry): Entries {
    Put(m, e.sourceId, e, AttestedAt)
  }

  function FromList(es: seq<BackingEntry>): Entries {
    Gathered(es, SourceId, AttestedAt)
  }

  function Union(a: Entries, b: Entries): Entries {
    Merge(a, b, AttestedAt)
  }

  // ---------- the gate ----------

  datatype AgePolicy = AgePolicy(maxAgeSecsByClass: map<string, U64>, defaultMaxAgeSecs: Option<U64>)
  {
    function Limit(freshnessClass: string): Option<U64> {
      if freshnessClass in maxAgeSecsByClass then Some(maxAgeSecsByClass[freshnessClass]) else defaultMaxAgeSecs
    }
  }

  datatype StaleEntry = StaleEntry(entry: BackingEntry, ageSecs: U64, limitSecs: Option<U64>)

  datatype BackingVerdict = Fresh | Stale(findings: seq<StaleEntry>)

  /** The seconds since the attestation, and none for one in the future. */
  lemma AgeMeans(e: BackingEntry, now: U64)
    ensures e.AgeSecs(now) == if now <= e.attestedAtSecs then 0 else now - e.attestedAtSecs
  {}

  /** A listed class is held to its own limit, any other to the default, and
      without a default such an entry is always overdue. */
  predicate Overdue(e: BackingEntry, policy: AgePolicy, now: U64) {
    if e.freshnessClass in policy.maxAgeSecsByClass
    then e.attestedAtSecs + policy.maxAgeSecsByClass[e.freshnessClass] < now
    else policy.defaultMaxAgeSecs.Some? ==> e.attestedAtSecs + policy.defaultMaxAgeSecs.value < now
  }

  lemma StaleIsOverdue(e: BackingEntry, policy: AgePolicy, now: U64)
    ensures IsStale(e, policy, now) <==> Overdue(e, policy, now)
  {
    AgeMeans(e, now);
  }

  /** Past its class limit, or of a class the policy does not cover. */
  predicate IsStale(e: BackingEntry, policy: AgePolicy, now: U64) {
    var limit := policy.Limit(e.freshnessClass);
    limit.None? || e.AgeSecs(now) > limit.value
  }

  function Finding(e: BackingEntry, policy: AgePolicy, now: U64): StaleEntry {
    StaleEntry(e, e.AgeSecs(now), policy.Limit(e.freshnessClass))
  }

  /** The findings among the entries under the first `n` keys, in that order. */
  function Findings(m: Entries, keys: seq<string>, n: nat, policy: AgePolicy, now: U64): seq<StaleEntry>
    requires n <= |keys| && forall k :: k in keys ==> k in m
  {
    if n == 0 then []
    else
      var earlier, e := Findings(m, keys, n - 1, policy, now), m[keys[n-1]];
      if IsStale(e, policy, now) then earlier + [Finding(e, policy, now)] else earlier
  }

  lemma NextFinding(m: Entries, keys: seq<string>, i: nat, policy: AgePolicy, now: U64)
    requires i < |keys| && forall k :: k in keys ==> k in m
    ensures var earlier, e := Findings(m, keys, i, policy, now), m[keys[i]];
      Findings(m, keys, i + 1, policy, now)
        == if IsStale(e, policy, now) then earlier + [Finding(e, policy, now)] else earlier
  {}

  function Gate(m: Entries, policy: AgePolicy, now: U64): BackingVerdict {
    InOrderEnumerates(m.Keys);
    var keys := InOrder(m.Keys);
    var findings := Findings(m, keys, |keys|, policy, now);
    if |findings| == 0 then Fresh else Stale(findings)
  }

  datatype BoundaryAge = BoundaryAge(maxAgeSecs: U64)

  /** `max_age_secs` over the entries under the first `n` keys. */
  function MaxAgeAmong(m: Entries, keys: seq<string>, n: nat, now: U64): Option<U64>
    requires n <= |keys| && forall k :: k in keys ==> k in m
  {
    if n == 0 then None
    else
      var earlier, age := MaxAgeAmong(m, keys, n - 1, now), m[keys[n-1]].AgeSecs(now);
      Some(if earlier.None? then age else Max(earlier.value, age))
  }

  function MaxAge(m: Entries, now: U64): Option<U64> {
    InOrderEnumerates(m.Keys);
    MaxAgeAmong(m, InOrder(m.Keys), |InOrder(m.Keys)|, now)
  }

  function Boundary(m: Entries, now: U64): Option<BoundaryAge> {
    match MaxAge(m, now)
    case Some(age) => Some(BoundaryAge(age))
    case None => None
  }

  // ---------- the mutable set ----------

  class BackingSet {
    var entries: Entries

    constructor ()
      ensures entries == map[]
    {
      entries := map[];
    }

    constructor FromEntries(es: seq<BackingEntry>)
      ensures entries == FromList(es)
    {
      entries := map[];
      new;
      InsertAll(es);
    }

    method InsertAll(es: seq<BackingEntry>)
      modifies this
      ensures entries == PutAll(old(entries), es, SourceId, AttestedAt)
    {
      for i := 0 to |es|
        invariant entries == PutAll(old(entries), es[..i], SourceId, AttestedAt)
      {
        NextPut(old(entries), es, i, SourceId, AttestedAt);
        Insert(es[i]);
      }
      assert es[..|es|] == es;
    }

    method Insert(e: BackingEntry)
      modifies this
      ensures entries == Inserted(old(entries), e)
    {
      if e.sourceId in entries && entries[e.sourceId].attestedAtSecs <= e.attestedAtSecs {
      } else {
        entries := entries[e.sourceId := e];
      }
    }

    /** The operands are left alone; the result is a fresh set. The other set's
        entries are inserted under their own ids, whatever keys they sit under. */
    method UnionWith(other: BackingSet) returns (out: BackingSet)
      ensures fresh(out) && out.entries == Union(entries, Rekeyed(other.entries, SourceId, AttestedAt))
      ensures Keyed(other.entries, SourceId) ==> out.entries == Union(entries, other.entries)
    {
      out := new BackingSet();
      out.entries := entries;
      out.InsertAll(InOrderValues(other.entries));
      PutAllMerges(entries, InOrderValues(other.entries), SourceId, AttestedAt);
      RekeyedIff(other.entries, SourceId, AttestedAt);
    }

    method GateAt(policy: AgePolicy, now: U64) returns (v: BackingVerdict)
      ensures v == Gate(entries, policy, now)
    {
      var stale: seq<StaleEntry> := [];
      var keys := OrderedKeys(entries);
      for i := 0 to |keys|
        invariant stale == Findings(entries, keys, i, policy, now)
      {
        assert keys[i] in keys;
        var e := entries[keys[i]];
        var ageSecs := e.AgeSecs(now);
        NextFinding(entries, keys, i, policy, now);
        match policy.Limit(e.freshnessClass) {
          case Some(limitSecs) =>
            if ageSecs > limitSecs {
              stale := stale + [StaleEntry(e, ageSecs, Some(limitSecs))];
            }
          case None =>
            stale := stale + [StaleEntry(e, ageSecs, None)];
        }
      }
      v := if |stale| == 0 then Fresh else Stale(stale);
    }
  }

  // ---------- what the gate reports ----------

  function StaleSources(m: Entries, policy: AgePolicy, now: U64): set<string> {
    set k | k in m && Overdue(m[k], policy, now)
  }

  function StaleIn(m: Entries, policy: AgePolicy, now: U64): string -> bool {
    k => k in m && IsStale(m[k], policy, now)
  }

  /** The finding quotes the entry, its age, and the limit of its class or else
      the default. */
  predicate QuotesEntry(f: StaleEntry, e: BackingEntry, policy: AgePolicy, now: U64) {
    && f.entry == e
    && f.ageSecs == (if now <= e.attestedAtSecs then 0 else now - e.attestedAtSecs)
    && f.limitSecs == (if e.freshnessClass in policy.maxAgeSecsByClass
                       then Some(policy.maxAgeSecsByClass[e.freshnessClass]) else policy.defaultMaxAgeSecs)
  }

  /** Key by key, the findings quote the entries. */
  ghost predicate Quotes(fs: seq<StaleEntry>, ks: seq<string>, m: Entries, policy: AgePolicy, now: U64) {
    |fs| == |ks| && forall i :: 0 <= i < |fs| ==> ks[i] in m && QuotesEntry(fs[i], m[ks[i]], policy, now)
  }

  lemma {:induction false} FindingsQuoteStaleKeys(m: Entries, keys: seq<string>, n: nat, policy: AgePolicy, now: U64)
    requires n <= |keys| && forall k :: k in keys ==> k in m
    ensures Quotes(Findings(m, keys, n, policy, now), Kept(keys, StaleIn(m, policy, now), n), m, policy, now)
  {
    if n == 0 {
    } else {
      FindingsQuoteStaleKeys(m, keys, n - 1, policy, now);
      assert keys[n-1] in keys;
    }
  }

  /** The verdict is Fresh exactly when no source is stale; otherwise it lists
      exactly the stale sources, in increasing key order, each with its entry,
      its age and the limit the policy gives its class. */
  lemma GateReportsStaleSources(m: Entries, policy: AgePolicy, now: U64) returns (ks: seq<string>)
    ensures Enumerates(ks, StaleSources(m, policy, now))
    ensures Gate(m, policy, now).Fresh? <==> StaleSources(m, policy, now) == {}
    ensures Gate(m, policy, now).Stale? ==> Quotes(Gate(m, policy, now).findings, ks, m, policy, now)
  {
    InOrderEnumerates(m.Keys);
    var keys := InOrder(m.Keys);
    ks := Kept(keys, StaleIn(m, policy, now), |keys|);
    FindingsQuoteStaleKeys(m, keys, |keys|, policy, now);
    forall k | k in m ensures IsStale(m[k], policy, now) <==> Overdue(m[k], policy, now) {
      StaleIsOverdue(m[k], policy, now);
    }
    KeptEnumerates(keys, m.Keys, StaleIn(m, policy, now), StaleSources(m, policy, now));
    EnumeratesCounts(ks, StaleSources(m, policy, now));
  }

  /** Time only adds stale sources. */
  lemma StaleSourcesGrow(m: Entries, policy: AgePolicy, now: U64, later: U64)
    requires now <= later
    ensures StaleSources(m, policy, now) <= StaleSources(m, policy, later)
  {}

  ghost predicate ClassesAgree(a: Entries, b: Entries) {
    forall k :: k in a && k in b ==> a[k].freshnessClass == b[k].freshnessClass
  }

  /** The stale sources of the union are those of the operands. */
  predicate StaleTogether(a: Entries, b: Entries, policy: AgePolicy, now: U64) {
    StaleSources(Union(a, b), policy, now) == StaleSources(a, policy, now) + StaleSources(b, policy, now)
  }

  lemma GateDistributesWhenClassesAgree(a: Entries, b: Entries, policy: AgePolicy, now: U64)
    requires ClassesAgree(a, b)
    ensures StaleTogether(a, b, policy, now)
  {}

  /** The gate distributes over union under every policy and at every instant
      exactly when shared sources carry one class. */
  lemma GateDistributesIff(a: Entries, b: Entries)
    ensures (forall policy, now :: StaleTogether(a, b, policy, now)) <==> ClassesAgree(a, b)
  {
    if ClassesAgree(a, b) {
      forall policy, now
        ensures StaleTogether(a, b, policy, now)
      {
        GateDistributesWhenClassesAgree(a, b, policy, now);
      }
    } else {
      var k :| k in a && k in b && a[k].freshnessClass != b[k].freshnessClass;
      var lax := AgePolicy(map[Union(a, b)[k].freshnessClass := TWO_64 - 1], None);
      assert k !in StaleSources(Union(a, b), lax, 0);
      assert k in StaleSources(a, lax, 0) + StaleSources(b, lax, 0);
      assert !StaleTogether(a, b, lax, 0);
    }
  }

  // ---------- when a union never freshens ----------

  /** Some entry of `u` has the class of `e` and is no younger. */
  ghost predicate CoveredBy(e: BackingEntry, u: Entries) {
    exists j :: j in u && u[j].freshnessClass == e.freshnessClass && u[j].attestedAtSecs <= e.attestedAtSecs
  }

  ghost predicate AllCovered(m: Entries, u: Entries) {
    forall k :: k in m ==> CoveredBy(m[k], u)
  }

  lemma StaleIsCovered(e: BackingEntry, u: Entries, policy: AgePolicy, now: U64)
    requires CoveredBy(e, u) && Overdue(e, policy, now)
    ensures StaleSources(u, policy, now) != {}
  {
    var j :| j in u && u[j].freshnessClass == e.freshnessClass && u[j].attestedAtSecs <= e.attestedAtSecs;
    assert j in StaleSources(u, policy, now);
  }

  /** Allows everything in `u` except ages of the class of `e` that `e` reaches
      at the last instant. */
  function StrictOn(e: BackingEntry, u: Entries): AgePolicy {
    var strict := SatSub(e.AgeSecs(TWO_64 - 1), 1);
    AgePolicy(map k | k in Classes(u) :: if k == e.freshnessClass then strict else TWO_64 - 1, None)
  }

  function Classes(u: Entries): set<string> {
    set k | k in u :: u[k].freshnessClass
  }

  lemma UncoveredShows(e: BackingEntry, u: Entries)
    requires !CoveredBy(e, u)
    ensures StaleSources(u, StrictOn(e, u), TWO_64 - 1) == {}
    ensures Overdue(e, StrictOn(e, u), TWO_64 - 1)
  {
    var policy := StrictOn(e, u);
    forall j | j in u ensures !Overdue(u[j], policy, TWO_64 - 1) {
      assert u[j].freshnessClass in Classes(u);
      if u[j].freshnessClass == e.freshnessClass {
        assert u[j].attestedAtSecs > e.attestedAtSecs;
      }
    }
    if e.freshnessClass in Classes(u) {
      var j :| j in u && u[j].freshnessClass == e.freshnessClass;
      assert u[j].attestedAtSecs > e.attestedAtSecs;
    }
  }

  /** No policy and no instant at which `u` is Fresh and `m` is not. */
  ghost predicate NeverFresher(u: Entries, m: Entries) {
    forall policy, now :: StaleSources(u, policy, now) == {} ==> StaleSources(m, policy, now) == {}
  }

  lemma NeverFresherIff(u: Entries, m: Entries)
    ensures NeverFresher(u, m) <==> AllCovered(m, u)
  {
    if AllCovered(m, u) {
      forall policy, now | StaleSources(u, policy, now) == {} ensures StaleSources(m, policy, now) == {} {
        if k :| k in StaleSources(m, policy, now) {
          StaleIsCovered(m[k], u, policy, now);
        }
      }
    } else {
      var k :| k in m && !CoveredBy(m[k], u);
      UncoveredShows(m[k], u);
      assert k in StaleSources(m, StrictOn(m[k], u), TWO_64 - 1);
    }
  }

  /** The union is Fresh under the policy at the instant exactly when both operands are. */
  predicate FreshAlike(a: Entries, b: Entries, policy: AgePolicy, now: U64) {
    Gate(Union(a, b), policy, now).Fresh? <==> Gate(a, policy, now).Fresh? && Gate(b, policy, now).Fresh?
  }

  /** And so under every policy at every instant. */
  ghost predicate FreshTogether(a: Entries, b: Entries) {
    forall policy, now :: FreshAlike(a, b, policy, now)
  }

  lemma FreshOperands(a: Entries, b: Entries, policy: AgePolicy, now: U64)
    requires StaleSources(a, policy, now) == {} && StaleSources(b, policy, now) == {}
    ensures StaleSources(Union(a, b), policy, now) == {}
  {
    var u := Union(a, b);
    forall k | k in u ensures !Overdue(u[k], policy, now) {
      assert (k in a && u[k] == a[k]) || (k in b && u[k] == b[k]);
      assert k in a ==> k !in StaleSources(a, policy, now);
      assert k in b ==> k !in StaleSources(b, policy, now);
    }
  }

  lemma GateIsFresh(m: Entries, policy: AgePolicy, now: U64)
    ensures Gate(m, policy, now).Fresh? <==> StaleSources(m, policy, now) == {}
  {
    var ks := GateReportsStaleSources(m, policy, now);
  }

  /** A union without stale sources has operands without any. */
  predicate NotFreshened(a: Entries, b: Entries, policy: AgePolicy, now: U64) {
    StaleSources(Union(a, b), policy, now) == {} ==>
      StaleSources(a, policy, now) == {} && StaleSources(b, policy, now) == {}
  }

  lemma FreshAtOnce(a: Entries, b: Entries, policy: AgePolicy, now: U64)
    ensures FreshAlike(a, b, policy, now) <==> NotFreshened(a, b, policy, now)
  {
    GateIsFresh(Union(a, b), policy, now);
    GateIsFresh(a, policy, now);
    GateIsFresh(b, policy, now);
    if StaleSources(a, policy, now) == {} && StaleSources(b, policy, now) == {} {
      FreshOperands(a, b, policy, now);
    }
  }

  lemma FreshTogetherStays(a: Entries, b: Entries, policy: AgePolicy, now: U64)
    requires FreshTogether(a, b)
    ensures NotFreshened(a, b, policy, now)
  {
    assert FreshAlike(a, b, policy, now);
    FreshAtOnce(a, b, policy, now);
  }

  lemma NeverFresherStays(a: Entries, b: Entries, policy: AgePolicy, now: U64)
    requires NeverFresher(Union(a, b), a) && NeverFresher(Union(a, b), b)
    ensures NotFreshened(a, b, policy, now)
  {}

  lemma FreshTogetherIff(a: Entries, b: Entries)
    ensures FreshTogether(a, b) <==> NeverFresher(Union(a, b), a) && NeverFresher(Union(a, b), b)
  {
    if FreshTogether(a, b) {
      forall policy, now | StaleSources(Union(a, b), policy, now) == {}
        ensures StaleSources(a, policy, now) == {} && StaleSources(b, policy, now) == {}
      {
        FreshTogetherStays(a, b, policy, now);
      }
    }
    if NeverFresher(Union(a, b), a) && NeverFresher(Union(a, b), b) {
      forall policy, now ensures FreshAlike(a, b, policy, now) {
        NeverFresherStays(a, b, policy, now);
        FreshAtOnce(a, b, policy, now);
      }
    }
  }

  /** No union turns a stale verdict fresh, under any policy at any instant,
      exactly when every entry of both operands is matched in the union by one of
      its class that is no younger. */
  lemma UnionNeverFreshensIff(a: Entries, b: Entries)
    ensures FreshTogether(a, b) <==> AllCovered(a, Union(a, b)) && AllCovered(b, Union(a, b))
  {
    FreshTogetherIff(a, b);
    NeverFresherIff(Union(a, b), a);
    NeverFresherIff(Union(a, b), b);
  }

  lemma OneClassCovers(a: Entries, b: Entries)
    requires ClassesAgree(a, b)
    ensures AllCovered(a, Union(a, b)) && AllCovered(b, Union(a, b))
  {
    var u := Union(a, b);
    forall k | k in a ensures CoveredBy(a[k], u) {
      assert u[k].freshnessClass == a[k].freshnessClass && u[k].attestedAtSecs <= a[k].attestedAtSecs;
    }
    forall k | k in b ensures CoveredBy(b[k], u) {
      assert u[k].freshnessClass == b[k].freshnessClass && u[k].attestedAtSecs <= b[k].attestedAtSecs;
    }
  }

  /** In particular when shared sources carry one class. */
  lemma UnionNeverFreshens(a: Entries, b: Entries, policy: AgePolicy, now: U64)
    requires ClassesAgree(a, b)
    ensures FreshAlike(a, b, policy, now)
  {
    OneClassCovers(a, b);
    UnionNeverFreshensIff(a, b);
    assert FreshAlike(a, b, policy, now);
  }

  /** Re-attesting at `now` exactly the sources a gate listed. */
  function Reattested(m: Entries, sources: set<string>, now: U64): Entries {
    map k | k in m :: if k in sources then m[k].(attestedAtSecs := now) else m[k]
  }

  predicate HasLimit(policy: AgePolicy, freshnessClass: string) {
    freshnessClass in policy.maxAgeSecsByClass || policy.defaultMaxAgeSecs.Some?
  }

  /** Re-attesting the listed sources makes the gate Fresh exactly when every
      finding had a limit. */
  lemma TargetedReattestation(m: Entries, policy: AgePolicy, now: U64)
    ensures Gate(Reattested(m, StaleSources(m, policy, now), now), policy, now).Fresh? <==>
      forall k :: k in StaleSources(m, policy, now) ==> HasLimit(policy, m[k].freshnessClass)
  {
    var r := Reattested(m, StaleSources(m, policy, now), now);
    var ks := GateReportsStaleSources(r, policy, now);
    if forall k :: k in StaleSources(m, policy, now) ==> HasLimit(policy, m[k].freshnessClass) {
      assert forall k :: k in r ==> !Overdue(r[k], policy, now);
    } else {
      var k :| k in StaleSources(m, policy, now) && !HasLimit(policy, m[k].freshnessClass);
      assert k in StaleSources(r, policy, now);
    }
  }

  // ---------- the un-resettable clock ----------

  /** How an output was derived: leaves are read from sources, nodes take the
      union of what their inputs carry and add nothing of their own. */
  datatype Derivation = Read(entries: Entries) | Derive(left: Derivation, right: Derivation)
  {
    function Backing(): Entries {
      match this
      case Read(m) => m
      case Derive(l, r) => Union(l.Backing(), r.Backing())
    }

    function Leaves(): seq<Entries> {
      match this
      case Read(m) => [m]
      case Derive(l, r) => l.Leaves() + r.Leaves()
    }
  }

  function UnionAll(leaves: seq<Entries>): Entries {
    MergeMany(leaves, AttestedAt)
  }

  /** Bracketing is irrelevant: only the leaves, left to right, matter. */
  lemma {:induction false} BackingIsUnionOfLeaves(t: Derivation)
    ensures t.Backing() == UnionAll(t.Leaves())
  {
    match t
    case Read(m) =>
      assert t.Leaves() == [m] && [m][1..] == [];
      assert MergeMany([m], AttestedAt) == Merge(m, MergeMany([m][1..], AttestedAt), AttestedAt);
      assert Merge(m, map[], AttestedAt) == m;
    case Derive(l, r) =>
      BackingIsUnionOfLeaves(l);
      BackingIsUnionOfLeaves(r);
      MergeManySplits(l.Leaves(), r.Leaves(), AttestedAt);
  }

  /** Over keyed leaves every stage is keyed, so its union takes each entry under
      the key it sits under. */
  lemma {:induction false} DerivationsStayKeyed(t: Derivation)
    requires forall m :: m in t.Leaves() ==> Keyed(m, SourceId)
    ensures Keyed(t.Backing(), SourceId)
  {
    match t
    case Read(m) =>
      assert m in t.Leaves();
    case Derive(l, r) =>
      assert forall m :: m in l.Leaves() || m in r.Leaves() ==> m in t.Leaves();
      DerivationsStayKeyed(l);
      DerivationsStayKeyed(r);
      MergeStaysKeyed(l.Backing(), r.Backing(), SourceId, AttestedAt);
  }

  /** A derived output carries exactly its leaves' sources, each with its
      earliest attestation anywhere in the tree: no derivation resets the clock. */
  lemma UnresettableClock(t: Derivation, k: string)
    ensures k in t.Backing() <==> exists i :: 0 <= i < |t.Leaves()| && k in t.Leaves()[i]
    ensures k in t.Backing() ==>
      exists i: nat :: FirstOldest(t.Leaves(), k, i, AttestedAt) && t.Backing()[k] == t.Leaves()[i][k]
    ensures k in t.Backing() ==>
      forall i :: 0 <= i < |t.Leaves()| && k in t.Leaves()[i] ==>
        t.Backing()[k].attestedAtSecs <= t.Leaves()[i][k].attestedAtSecs
  {
    BackingIsUnionOfLeaves(t);
    var i := MergeManyKeepsFirstOldest(t.Leaves(), k, AttestedAt);
  }

  /** Entries tied for the earliest attestation of a source are the same. */
  ghost predicate OldestTiesAgree(leaves: seq<Entries>) {
    forall i, j, k :: 0 <= i < |leaves| && 0 <= j < |leaves| && IsOldest(leaves, k, i) && IsOldest(leaves, k, j)
      ==> leaves[i][k] == leaves[j][k]
  }

  ghost predicate IsOldest(leaves: seq<Entries>, k: string, i: nat) {
    && i < |leaves| && k in leaves[i]
    && forall j :: 0 <= j < |leaves| && k in leaves[j] ==> leaves[i][k].attestedAtSecs <= leaves[j][k].attestedAtSecs
  }

  lemma OrderHidesWhenTiesAgree(leaves: seq<Entries>, other: seq<Entries>)
    requires OldestTiesAgree(leaves) && multiset(leaves) == multiset(other)
    ensures UnionAll(other) == UnionAll(leaves)
  {
    assert forall x :: x in leaves <==> x in multiset(leaves);
    assert forall x :: x in other <==> x in multiset(other);
    var a, b := UnionAll(leaves), UnionAll(other);
    forall k ensures k in a <==> k in b
      ensures k in a && k in b ==> a[k] == b[k]
    {
      SameKept(leaves, other, k);
    }
    assert a.Keys == b.Keys;
  }

  lemma SameKept(leaves: seq<Entries>, other: seq<Entries>, k: string)
    requires OldestTiesAgree(leaves) && forall x :: x in leaves <==> x in other
    ensures k in UnionAll(leaves) <==> k in UnionAll(other)
    ensures k in UnionAll(leaves) ==> UnionAll(leaves)[k] == UnionAll(other)[k]
  {
    var i := MergeManyKeepsFirstOldest(leaves, k, AttestedAt);
    var j := MergeManyKeepsFirstOldest(other, k, AttestedAt);
    forall n | 0 <= n < |leaves| ensures leaves[n] in other { assert leaves[n] in leaves; }
    forall n | 0 <= n < |other| ensures other[n] in leaves { assert other[n] in other; }
    if k in UnionAll(leaves) && k in UnionAll(other) {
      var j' :| 0 <= j' < |leaves| && leaves[j'] == other[j];
      forall n | 0 <= n < |leaves| && k in leaves[n] ensures other[j][k].attestedAtSecs <= leaves[n][k].attestedAtSecs {
        assert leaves[n] in other;
      }
      assert IsOldest(leaves, k, i) && IsOldest(leaves, k, j');
    }
  }

  /** Whichever tied leaf comes first is the one whose entry is kept. */
  lemma FirstTiedIsKept(leaves: seq<Entries>, rest: seq<Entries>, k: string, i: nat)
    requires IsOldest(leaves, k, i) && multiset([leaves[i]] + rest) == multiset(leaves)
    ensures k in UnionAll([leaves[i]] + rest) && UnionAll([leaves[i]] + rest)[k] == leaves[i][k]
  {
    var all := [leaves[i]] + rest;
    var r := MergeManyKeepsFirstOldest(all, k, AttestedAt);
    assert all[0] == leaves[i];
    forall n | 0 <= n < |all| ensures all[n] in leaves {
      assert all[n] in multiset(all);
    }
  }

  lemma TiedLeavesShowOrder(leaves: seq<Entries>, i: nat, j: nat, k: string) returns (p: seq<Entries>, q: seq<Entries>)
    requires IsOldest(leaves, k, i) && IsOldest(leaves, k, j) && leaves[i][k] != leaves[j][k]
    ensures multiset(p) == multiset(leaves) && multiset(q) == multiset(leaves)
    ensures UnionAll(p) != UnionAll(q)
  {
    BringToFront(leaves, i);
    BringToFront(leaves, j);
    FirstTiedIsKept(leaves, Without(leaves, i), k, i);
    FirstTiedIsKept(leaves, Without(leaves, j), k, j);
    p, q := [leaves[i]] + Without(leaves, i), [leaves[j]] + Without(leaves, j);
  }

  /** The order of the leaves never shows exactly when entries tied for a
      source's earliest attestation agree (that is, on their class). */
  lemma LeafOrderHidesIff(leaves: seq<Entries>)
    ensures (forall other :: multiset(other) == multiset(leaves) ==> UnionAll(other) == UnionAll(leaves))
       <==> OldestTiesAgree(leaves)
  {
    if OldestTiesAgree(leaves) {
      forall other | multiset(other) == multiset(leaves) ensures UnionAll(other) == UnionAll(leaves) {
        OrderHidesWhenTiesAgree(leaves, other);
      }
    } else {
      var i, j, k :| 0 <= i < |leaves| && 0 <= j < |leaves| && IsOldest(leaves, k, i) && IsOldest(leaves, k, j)
        && leaves[i][k] != leaves[j][k];
      var p, q := TiedLeavesShowOrder(leaves, i, j, k);
      assert UnionAll(p) != UnionAll(leaves) || UnionAll(q) != UnionAll(leaves);
    }
  }

  /** Building from a concatenated list is the union of building from its parts. */
  lemma FromListSplits(xs: seq<BackingEntry>, ys: seq<BackingEntry>)
    ensures FromList(xs + ys) == Union(FromList(xs), FromList(ys))
  {
    GatheredSplits(xs, ys, SourceId, AttestedAt);
  }

  // ---------- the boundary aggregate ----------

  lemma {:induction false} MaxAgeAmongIsLargest(m: Entries, keys: seq<string>, n: nat, now: U64)
    requires n <= |keys| && forall k :: k in keys ==> k in m
    ensures MaxAgeAmong(m, keys, n, now).None? <==> n == 0
    ensures n > 0 ==> exists x :: 0 <= x < n && m[keys[x]].AgeSecs(now) == MaxAgeAmong(m, keys, n, now).value
    ensures forall x :: 0 <= x < n ==> m[keys[x]].AgeSecs(now) <= MaxAgeAmong(m, keys, n, now).value
  {
    if n == 0 {
    } else {
      MaxAgeAmongIsLargest(m, keys, n - 1, now);
      assert keys[n-1] in keys;
    }
  }

  /** `r` is the largest age in the set, or nothing for an empty set. */
  ghost predicate IsMaxAge(m: Entries, now: U64, r: Option<U64>) {
    && (r.None? ==> forall k :: k !in m)
    && (r.Some? ==> exists k :: k in m && m[k].AgeSecs(now) == r.value)
    && (r.Some? ==> forall k :: k in m ==> m[k].AgeSecs(now) <= r.value)
  }

  /** The age of the oldest entry; nothing for an empty set. */
  lemma MaxAgeIsLargest(m: Entries, now: U64)
    ensures IsMaxAge(m, now, MaxAge(m, now))
  {
    InOrderEnumerates(m.Keys);
    var keys := InOrder(m.Keys);
    MaxAgeAmongIsLargest(m, keys, |keys|, now);
    EnumeratedMaxAge(m, keys, MaxAge(m, now), now);
  }

  lemma EnumeratedMaxAge(m: Entries, keys: seq<string>, r: Option<U64>, now: U64)
    requires Enumerates(keys, m.Keys)
    requires r.None? <==> |keys| == 0
    requires r.Some? ==> exists x :: 0 <= x < |keys| && m[keys[x]].AgeSecs(now) == r.value
    requires r.Some? ==> forall x :: 0 <= x < |keys| ==> m[keys[x]].AgeSecs(now) <= r.value
    ensures IsMaxAge(m, now, r)
  {
    forall k | k in m ensures r.Some? && m[k].AgeSecs(now) <= r.value {
      assert k in keys;
      var x :| 0 <= x < |keys| && keys[x] == k;
    }
    if r.Some? {
      var x :| 0 <= x < |keys| && m[keys[x]].AgeSecs(now) == r.value;
      assert keys[x] in keys;
    }
  }

  lemma MaxAgeUnique(m: Entries, now: U64, x: Option<U64>, y: Option<U64>)
    requires IsMaxAge(m, now, x) && IsMaxAge(m, now, y)
    ensures x == y
  {}

  function LargerAge(x: Option<U64>, y: Option<U64>): Option<U64> {
    if x.None? then y else if y.None? then x else Some(Max(x.value, y.value))
  }

  lemma LargerAgeOfUnion(a: Entries, b: Entries, now: U64, x: Option<U64>, y: Option<U64>)
    requires IsMaxAge(a, now, x) && IsMaxAge(b, now, y)
    ensures IsMaxAge(Union(a, b), now, LargerAge(x, y))
  {
    var u, r := Union(a, b), LargerAge(x, y);
    if x.Some? && r == x {
      var k :| k in a && a[k].AgeSecs(now) == x.value;
      assert k in u && u[k].AgeSecs(now) >= a[k].AgeSecs(now);
      assert k in b ==> y.Some? && b[k].AgeSecs(now) <= y.value;
    } else if y.Some? {
      var k :| k in b && b[k].AgeSecs(now) == y.value;
      assert k in u && u[k].AgeSecs(now) >= b[k].AgeSecs(now);
      assert k in a ==> x.Some? && a[k].AgeSecs(now) <= x.value;
    }
  }

  /** At every instant, the age of a union is the larger of the operands' ages. */
  lemma MaxAgeOfUnion(a: Entries, b: Entries, now: U64)
    ensures MaxAge(Union(a, b), now) == LargerAge(MaxAge(a, now), MaxAge(b, now))
  {
    MaxAgeIsLargest(a, now);
    MaxAgeIsLargest(b, now);
    MaxAgeIsLargest(Union(a, b), now);
    LargerAgeOfUnion(a, b, now, MaxAge(a, now), MaxAge(b, now));
    MaxAgeUnique(Union(a, b), now, MaxAge(Union(a, b), now), LargerAge(MaxAge(a, now), MaxAge(b, now)));
  }

  function LargestAge(leaves: seq<Entries>, now: U64): Option<U64> {
    if |leaves| == 0 then None else LargerAge(MaxAge(leaves[0], now), LargestAge(leaves[1..], now))
  }

  lemma {:induction false} MaxAgeOfUnionAll(leaves: seq<Entries>, now: U64)
    ensures MaxAge(UnionAll(leaves), now) == LargestAge(leaves, now)
  {
    if |leaves| == 0 {
      MaxAgeIsLargest(map[], now);
    } else {
      MaxAgeOfUnionAll(leaves[1..], now);
      MaxAgeOfUnion(leaves[0], UnionAll(leaves[1..]), now);
    }
  }

  /** What a derived output reports across a trust boundary is the largest age
      over all of its leaves, whenever it is asked. */
  lemma BoundaryReportsOldestLeaf(t: Derivation, now: U64)
    ensures Boundary(t.Backing(), now) ==
      match LargestAge(t.Leaves(), now) case Some(age) => Some(BoundaryAge(age)) case None => None
  {
    BackingIsUnionOfLeaves(t);
    MaxAgeOfUnionAll(t.Leaves(), now);
  }
}
