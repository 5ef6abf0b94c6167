/** The model-freshness oracle (src/model_registry.rs): a lineage is adopted
    only with a quorum of distinct registered publishers over that exact
    snapshot, and model distance counts lineage positions. */
module ModelRegistry {
  import opened Types
  import opened Sequences
  import opened Text
  import opened Json
  import opened Canonical
  import opened Registries

  datatype ModelEpoch = ModelEpoch(weightsHash: Hash32, epoch: U64, activationBlock: U64)

  datatype ModelLineage = ModelLineage(epochs: seq<ModelEpoch>)

  predicate EpochLeq(a: ModelEpoch, b: ModelEpoch) {
    a.epoch <= b.epoch
  }

  /** `ModelLineage::new`: sorted by epoch number only, stably. */
  function NewLineage(epochs: seq<ModelEpoch>): ModelLineage {
    ModelLineage(Sort(epochs, EpochLeq))
  }

  /** A stable sorted permutation. */
  lemma NewLineageSorts(epochs: seq<ModelEpoch>)
    ensures var l := NewLineage(epochs).epochs;
      && multiset(l) == multiset(epochs)
      && (forall i, j :: 0 <= i < j < |l| ==> l[i].epoch <= l[j].epoch)
      && (forall k :: Tied(l, k, EpochLeq) == Tied(epochs, k, EpochLeq))
  {
    SortSorts(epochs, EpochLeq);
    forall k ensures Tied(Sort(epochs, EpochLeq), k, EpochLeq) == Tied(epochs, k, EpochLeq) {
      SortIsStable(epochs, k, EpochLeq);
    }
  }

  ghost predicate SharedEpochsAgree(epochs: seq<ModelEpoch>) {
    forall i, j :: 0 <= i < |epochs| && 0 <= j < |epochs| && epochs[i].epoch == epochs[j].epoch ==>
      epochs[i] == epochs[j]
  }

  /** The lineage is independent of the order its epochs were listed in exactly
      when entries sharing an epoch number are identical. */
  lemma NewLineageIgnoresOrderIff(epochs: seq<ModelEpoch>)
    ensures (forall ys :: multiset(ys) == multiset(epochs) ==> NewLineage(ys) == NewLineage(epochs))
       <==> SharedEpochsAgree(epochs)
  {
    var view := (e: ModelEpoch) => e;
    if SharedEpochsAgree(epochs) {
      assert TiesAgree(epochs, EpochLeq, view);
      forall ys | multiset(ys) == multiset(epochs) ensures NewLineage(ys) == NewLineage(epochs) {
        SortedViewIgnoresOrder(epochs, ys, EpochLeq, view);
        SameIdentityView(Sort(epochs, EpochLeq), Sort(ys, EpochLeq), view);
      }
    } else {
      var i, j :| 0 <= i < |epochs| && 0 <= j < |epochs|
        && epochs[i].epoch == epochs[j].epoch && epochs[i] != epochs[j];
      assert Ties(epochs[i], epochs[j], EpochLeq) && view(epochs[i]) != view(epochs[j]);
      OrderIndependentIffTiesAgree(epochs, EpochLeq, view);
      var ys :| multiset(ys) == multiset(epochs) && !SameView(Sort(ys, EpochLeq), Sort(epochs, EpochLeq), view);
      assert NewLineage(ys) != NewLineage(epochs);
    }
  }

  lemma SameIdentityView(a: seq<ModelEpoch>, b: seq<ModelEpoch>, view: ModelEpoch -> ModelEpoch)
    requires SameView(a, b, view) && forall e :: view(e) == e
    ensures a == b
  {
    assert forall i :: 0 <= i < |a| ==> view(a[i]) == view(b[i]);
  }

  // ---------- the snapshot publishers sign ----------

  function EpochValue(e: ModelEpoch): Value {
    Object([Member("weights_hash", String(HexEncode(e.weightsHash))),
            Member("epoch", Int(e.epoch)),
            Member("activation_block", Int(e.activationBlock))])
  }

  function CanonicalValue(l: ModelLineage): Value {
    Object([Member("epochs", Array(Map(EpochValue, l.epochs))),
            Member("version", String("f_m/0.1"))])
  }

  function SigningMessage(l: ModelLineage): string {
    CanonicalJson(CanonicalValue(l))
  }

  lemma EpochValueInjective(a: ModelEpoch, b: ModelEpoch)
    requires Same(EpochValue(a), EpochValue(b))
    ensures a == b
  {
    var ms, ns := EpochValue(a).members, EpochValue(b).members;
    assert ms[0].key == ns[0].key && ms[1].key == ns[1].key && ms[2].key == ns[2].key;
    assert Same(ms[0].value, ns[0].value) && Same(ms[1].value, ns[1].value) && Same(ms[2].value, ns[2].value);
    HexInjective(a.weightsHash, b.weightsHash);
  }

  lemma SnapshotWellFormed(l: ModelLineage)
    ensures WellFormed(CanonicalValue(l))
  {
    assert forall i :: 0 <= i < |l.epochs| ==> WellFormed(EpochValue(l.epochs[i]));
    var ms := CanonicalValue(l).members;
    assert WellFormed(ms[0].value) && WellFormed(ms[1].value);
  }

  /** What a publisher's signature is verified against. */
  function MessageBytes(l: ModelLineage): seq<Byte> {
    Utf8(SigningMessage(l))
  }

  /** Publishers who sign the same text sign the same lineage. */
  lemma SigningMessageInjective(a: ModelLineage, b: ModelLineage)
    requires SigningMessage(a) == SigningMessage(b)
    ensures a == b
  {
    SnapshotWellFormed(a);
    SnapshotWellFormed(b);
    CanonicalJsonDecidesSame(CanonicalValue(a), CanonicalValue(b));
    var ms, ns := CanonicalValue(a).members, CanonicalValue(b).members;
    assert ms[0].key == ns[0].key && Same(ms[0].value, ns[0].value);
    var xs, ys := ms[0].value.items, ns[0].value.items;
    forall i | 0 <= i < |a.epochs| ensures a.epochs[i] == b.epochs[i] {
      assert Same(xs[i], ys[i]);
      EpochValueInjective(a.epochs[i], b.epochs[i]);
    }
  }

  ghost predicate SpellsEpoch(v: Value, e: ModelEpoch) {
    && Holds(v, "weights_hash", String(HexEncode(e.weightsHash)))
    && Holds(v, "epoch", Int(e.epoch))
    && Holds(v, "activation_block", Int(e.activationBlock))
  }

  ghost predicate SpellsEpochs(v: Value, epochs: seq<ModelEpoch>) {
    && v.Array? && |v.items| == |epochs|
    && forall i :: 0 <= i < |epochs| ==> SpellsEpoch(v.items[i], epochs[i])
  }

  /** The document lists exactly these epochs, in order, under "epochs". */
  ghost predicate HoldsEpochs(v: Value, epochs: seq<ModelEpoch>) {
    && v.Object?
    && exists j :: 0 <= j < |v.members| && v.members[j].key == "epochs" && SpellsEpochs(v.members[j].value, epochs)
  }

  lemma EpochSpelled(e: ModelEpoch, v: Value)
    requires Same(EpochValue(e), v)
    ensures SpellsEpoch(v, e)
  {
    var ms := EpochValue(e).members;
    SameHoldsMembers(ms, v);
    assert Holds(v, ms[0].key, ms[0].value) && Holds(v, ms[1].key, ms[1].value) && Holds(v, ms[2].key, ms[2].value);
  }

  lemma EpochsSpelled(epochs: seq<ModelEpoch>, v: Value)
    requires Same(Array(Map(EpochValue, epochs)), v)
    ensures SpellsEpochs(v, epochs)
  {
    var values := Map(EpochValue, epochs);
    forall i | 0 <= i < |epochs| ensures SpellsEpoch(v.items[i], epochs[i]) {
      assert Same(values[i], v.items[i]);
      EpochSpelled(epochs[i], v.items[i]);
    }
  }

  /** A reader of the snapshot finds the epochs in lineage order, each field
      under its own name. */
  lemma SnapshotReadsBack(l: ModelLineage, v: Value)
    requires WellFormed(v) && CanonicalJson(v) == SigningMessage(l)
    ensures HoldsEpochs(v, l.epochs)
    ensures Holds(v, "version", String("f_m/0.1"))
  {
    SnapshotWellFormed(l);
    var ms := CanonicalValue(l).members;
    TextHoldsMembers(ms, v);
    assert Holds(v, ms[0].key, ms[0].value) && Holds(v, ms[1].key, ms[1].value);
    var j :| 0 <= j < |v.members| && v.members[j].key == ms[0].key && Same(ms[0].value, v.members[j].value);
    EpochsSpelled(l.epochs, v.members[j].value);
  }

  // ---------- quorum adoption ----------

  datatype QuorumSignature = QuorumSignature(publicKey: Hash32, signature: Signature)

  predicate Counts(crypto: Crypto, publishers: set<Hash32>, lineage: ModelLineage, s: QuorumSignature) {
    s.publicKey in publishers && crypto.verifies(s.publicKey, MessageBytes(lineage), s.signature)
  }

  /** The registered publishers with a valid signature on this exact lineage. */
  function ValidSigners(crypto: Crypto, publishers: set<Hash32>, lineage: ModelLineage,
                        sigs: seq<QuorumSignature>): set<Hash32> {
    set s | s in sigs && Counts(crypto, publishers, lineage, s) :: s.publicKey
  }

  predicate HasQuorum(crypto: Crypto, publishers: set<Hash32>, threshold: nat, lineage: ModelLineage,
                      sigs: seq<QuorumSignature>) {
    0 < threshold <= |ValidSigners(crypto, publishers, lineage, sigs)|
  }

  /** `pk` is registered and one of the signatures is its own, on the canonical
      text of exactly this lineage. */
  ghost predicate Endorses(crypto: Crypto, publishers: set<Hash32>, lineage: ModelLineage, sigs: seq<QuorumSignature>,
                           pk: Hash32) {
    && pk in publishers
    && exists i :: 0 <= i < |sigs| && sigs[i].publicKey == pk
         && crypto.verifies(pk, Utf8(CanonicalJson(CanonicalValue(lineage))), sigs[i].signature)
  }

  ghost predicate AllEndorse(crypto: Crypto, publishers: set<Hash32>, lineage: ModelLineage, sigs: seq<QuorumSignature>,
                             who: set<Hash32>) {
    forall pk :: pk in who ==> Endorses(crypto, publishers, lineage, sigs, pk)
  }

  /** There is a quorum exactly when the threshold is positive and some set of at
      least that many publishers endorses the lineage. */
  lemma HasQuorumIff(crypto: Crypto, publishers: set<Hash32>, threshold: nat, lineage: ModelLineage,
                     sigs: seq<QuorumSignature>)
    ensures HasQuorum(crypto, publishers, threshold, lineage, sigs) <==>
      && threshold > 0
      && exists who: set<Hash32> :: |who| >= threshold && AllEndorse(crypto, publishers, lineage, sigs, who)
  {
    var signers := ValidSigners(crypto, publishers, lineage, sigs);
    forall pk ensures pk in signers <==> Endorses(crypto, publishers, lineage, sigs, pk) {
      SignerEndorses(crypto, publishers, lineage, sigs, pk);
    }
    if threshold <= |signers| {
      assert AllEndorse(crypto, publishers, lineage, sigs, signers);
    }
    if who: set<Hash32> :| |who| >= threshold && AllEndorse(crypto, publishers, lineage, sigs, who) {
      Within(who, signers);
    }
  }

  lemma SignerEndorses(crypto: Crypto, publishers: set<Hash32>, lineage: ModelLineage, sigs: seq<QuorumSignature>,
                       pk: Hash32)
    ensures pk in ValidSigners(crypto, publishers, lineage, sigs) <==> Endorses(crypto, publishers, lineage, sigs, pk)
  {
    if pk in ValidSigners(crypto, publishers, lineage, sigs) {
      var s :| s in sigs && Counts(crypto, publishers, lineage, s) && s.publicKey == pk;
      var i :| 0 <= i < |sigs| && sigs[i] == s;
    }
    if Endorses(crypto, publishers, lineage, sigs, pk) {
      var i :| 0 <= i < |sigs| && sigs[i].publicKey == pk
        && crypto.verifies(pk, Utf8(CanonicalJson(CanonicalValue(lineage))), sigs[i].signature);
      assert Counts(crypto, publishers, lineage, sigs[i]);
    }
  }

  class QuorumModelOracle {
    const publishers: set<Hash32>
    const threshold: nat
    var lineage: Option<ModelLineage>

    constructor (keys: seq<Hash32>, threshold: nat)
      ensures publishers == (set k | k in keys) && this.threshold == threshold && lineage == None
    {
      publishers := set k | k in keys;
      this.threshold := threshold;
      lineage := None;
    }

    method PresentLineage(crypto: Crypto, candidate: ModelLineage, signatures: seq<QuorumSignature>)
      returns (r: Result<()>)
      modifies this
      ensures r.Ok? <==> HasQuorum(crypto, publishers, threshold, candidate, signatures)
      ensures r.Err? ==> r == Err(OracleUnavailable)
      ensures lineage == if r.Ok? then Some(candidate) else old(lineage)
      ensures lineage == OrElse(Adopted(crypto, publishers, threshold, Presentation(candidate, signatures)),
                                old(lineage))
    {
      if threshold == 0 {
        return Err(OracleUnavailable);
      }
      var message := MessageBytes(candidate);
      var distinctValid: set<Hash32> := {};
      for i := 0 to |signatures|
        invariant distinctValid == ValidSigners(crypto, publishers, candidate, signatures[..i])
      {
        var s := signatures[i];
        assert signatures[..i+1] == signatures[..i] + [s];
        if s.publicKey !in publishers {
          continue;
        }
        if crypto.verifies(s.publicKey, message, s.signature) {
          distinctValid := distinctValid + {s.publicKey};
        }
      }
      assert signatures[..|signatures|] == signatures;
      if |distinctValid| < threshold {
        return Err(OracleUnavailable);
      }
      lineage := Some(candidate);
      r := Ok(());
    }

    method ModelEpochDistance(weightsHash: Hash32, height: U64) returns (r: Result<nat>)
      ensures r == Distance(lineage, weightsHash, height)
    {
      if lineage.None? {
        return Err(OracleUnavailable);
      }
      var committed := PositionOf(lineage.value, weightsHash);
      if committed.None? {
        return Err(OracleUnavailable);
      }
      var canonical := CanonicalPositionAt(lineage.value, height);
      if canonical.None? {
        return Err(OracleUnavailable);
      }
      r := Ok(if canonical.value < committed.value then 0 else canonical.value - committed.value);
    }
  }

  /** Repeating or reordering signatures never changes the outcome. */
  lemma OnlyTheSetOfSignaturesMatters(crypto: Crypto, publishers: set<Hash32>, threshold: nat, lineage: ModelLineage,
                                      xs: seq<QuorumSignature>, ys: seq<QuorumSignature>)
    requires forall s :: s in xs <==> s in ys
    ensures HasQuorum(crypto, publishers, threshold, lineage, xs)
       <==> HasQuorum(crypto, publishers, threshold, lineage, ys)
  {
    assert ValidSigners(crypto, publishers, lineage, xs) == ValidSigners(crypto, publishers, lineage, ys);
  }

  // ---------- runs of the registry ----------

  datatype Presentation = Presentation(lineage: ModelLineage, signatures: seq<QuorumSignature>)

  /** What a presentation adopts. */
  function Adopted(crypto: Crypto, publishers: set<Hash32>, threshold: nat, p: Presentation): Option<ModelLineage> {
    if HasQuorum(crypto, publishers, threshold, p.lineage, p.signatures) then Some(p.lineage) else None
  }

  /** What each call of a run adopts. */
  function Adoptions(crypto: Crypto, publishers: set<Hash32>, threshold: nat,
                     calls: seq<Presentation>): (r: seq<Option<ModelLineage>>)
    ensures |r| == |calls| && forall i :: 0 <= i < |r| ==> r[i] == Adopted(crypto, publishers, threshold, calls[i])
  {
    seq(|calls|, i requires 0 <= i < |calls| => Adopted(crypto, publishers, threshold, calls[i]))
  }

  /** The lineage held after a run, initially none. */
  function Held(crypto: Crypto, publishers: set<Hash32>, threshold: nat,
                calls: seq<Presentation>): Option<ModelLineage> {
    Latest(Adoptions(crypto, publishers, threshold, calls))
  }

  /** A held lineage was presented with at least M distinct registered
      publishers' valid signatures on exactly that lineage, and every later
      presentation lacked a quorum. */
  lemma HeldHasQuorum(crypto: Crypto, publishers: set<Hash32>, threshold: nat, calls: seq<Presentation>)
    returns (k: nat)
    requires Held(crypto, publishers, threshold, calls).Some?
    ensures k < |calls| && Held(crypto, publishers, threshold, calls) == Some(calls[k].lineage)
    ensures HasQuorum(crypto, publishers, threshold, calls[k].lineage, calls[k].signatures)
    ensures forall j :: k < j < |calls| ==> Adopted(crypto, publishers, threshold, calls[j]).None?
  {
    var log := Adoptions(crypto, publishers, threshold, calls);
    k := LatestIsLast(log);
    assert log[k] == Adopted(crypto, publishers, threshold, calls[k]);
  }

  /** A run holds a lineage exactly when some call had a quorum. */
  lemma HeldIff(crypto: Crypto, publishers: set<Hash32>, threshold: nat, calls: seq<Presentation>)
    ensures Held(crypto, publishers, threshold, calls).Some? <==>
      exists k :: 0 <= k < |calls| && HasQuorum(crypto, publishers, threshold, calls[k].lineage, calls[k].signatures)
  {
    var log := Adoptions(crypto, publishers, threshold, calls);
    LatestSomeIff(log);
    if k :| 0 <= k < |calls| && HasQuorum(crypto, publishers, threshold, calls[k].lineage, calls[k].signatures) {
      assert log[k].Some?;
    }
    if k :| 0 <= k < |log| && log[k].Some? {
      assert log[k] == Adopted(crypto, publishers, threshold, calls[k]);
    }
  }

  // ---------- no forks ----------

  predicate Comparable(a: ModelLineage, b: ModelLineage) {
    a.epochs <= b.epochs || b.epochs <= a.epochs
  }

  /** A publisher that has signed nothing but snapshots of one growing lineage. */
  ghost predicate SignsOneHistory(crypto: Crypto, pk: Hash32, snapshots: seq<ModelLineage>) {
    && (forall i, j :: 0 <= i < j < |snapshots| ==> snapshots[i].epochs <= snapshots[j].epochs)
    && SignsOnly(crypto, MessageBytes, pk, snapshots)
  }

  /** Whatever verifies under `pk` is the message of one of the snapshots. */
  ghost predicate SignsOnly(crypto: Crypto, message: ModelLineage -> seq<Byte>, pk: Hash32,
                            snapshots: seq<ModelLineage>) {
    forall m, sig :: crypto.verifies(pk, m, sig) ==> exists i :: 0 <= i < |snapshots| && m == message(snapshots[i])
  }

  lemma QuorumsMeet(a: set<Hash32>, b: set<Hash32>, all: set<Hash32>)
    requires a <= all && b <= all
    ensures |a * b| >= |a| + |b| - |all|
  {
    Within(a + b, all);
    assert |a + b| == |a| + |b| - |a * b|;
  }

  lemma {:induction false} Within<T>(a: set<T>, b: set<T>)
    requires a <= b
    ensures |a| <= |b|
  {
    if a == {} {
    } else {
      var x :| x in a;
      Within(a - {x}, b - {x});
    }
  }

  lemma SignerVerified(crypto: Crypto, publishers: set<Hash32>, pk: Hash32, l: ModelLineage, sigs: seq<QuorumSignature>)
    returns (sig: Signature)
    requires pk in ValidSigners(crypto, publishers, l, sigs)
    ensures crypto.verifies(pk, MessageBytes(l), sig)
  {
    var s :| s in sigs && Counts(crypto, publishers, l, s) && s.publicKey == pk;
    sig := s.signature;
  }

  lemma SnapshotFor(crypto: Crypto, message: ModelLineage -> seq<Byte>, pk: Hash32, m: seq<Byte>, sig: Signature,
                    snapshots: seq<ModelLineage>)
    returns (i: nat)
    requires SignsOnly(crypto, message, pk, snapshots) && crypto.verifies(pk, m, sig)
    ensures i < |snapshots| && m == message(snapshots[i])
  {
    i :| i < |snapshots| && m == message(snapshots[i]);
  }

  lemma SignedSnapshot(crypto: Crypto, publishers: set<Hash32>, pk: Hash32, l: ModelLineage,
                       sigs: seq<QuorumSignature>, snapshots: seq<ModelLineage>)
    returns (i: nat)
    requires pk in ValidSigners(crypto, publishers, l, sigs) && SignsOneHistory(crypto, pk, snapshots)
    ensures i < |snapshots| && snapshots[i] == l
  {
    var sig := SignerVerified(crypto, publishers, pk, l, sigs);
    i := SnapshotFor(crypto, MessageBytes, pk, MessageBytes(l), sig, snapshots);
    Utf8Injective(SigningMessage(l), SigningMessage(snapshots[i]));
    SigningMessageInjective(l, snapshots[i]);
  }

  /** With 2M > N + f, two quorums share a publisher that is not faulty. */
  lemma HonestInBoth(a: set<Hash32>, b: set<Hash32>, publishers: set<Hash32>, threshold: nat, faulty: set<Hash32>,
                     f: nat)
    returns (pk: Hash32)
    requires 2 * threshold > |publishers| + f && |faulty| <= f
    requires a <= publishers && b <= publishers && |a| >= threshold && |b| >= threshold
    ensures pk in a && pk in b && pk in publishers - faulty
  {
    QuorumsMeet(a, b, publishers);
    if a * b <= faulty {
      Within(a * b, faulty);
    }
    pk :| pk in a * b && pk !in faulty;
  }

  /** Two lineages signed by a publisher with one growing history are comparable. */
  lemma OneHistoryIsComparable(crypto: Crypto, publishers: set<Hash32>, pk: Hash32, snapshots: seq<ModelLineage>,
                               p: Presentation, q: Presentation)
    requires SignsOneHistory(crypto, pk, snapshots)
    requires pk in ValidSigners(crypto, publishers, p.lineage, p.signatures)
    requires pk in ValidSigners(crypto, publishers, q.lineage, q.signatures)
    ensures Comparable(p.lineage, q.lineage)
  {
    var i := SignedSnapshot(crypto, publishers, pk, p.lineage, p.signatures, snapshots);
    var j := SignedSnapshot(crypto, publishers, pk, q.lineage, q.signatures, snapshots);
  }

  /** With 2M > N + f and all but f publishers each signing one growing
      history, any two lineages that ever reach a quorum are prefix-comparable. */
  lemma NoForks(crypto: Crypto, publishers: set<Hash32>, threshold: nat, faulty: set<Hash32>, f: nat,
                history: Hash32 -> seq<ModelLineage>, p: Presentation, q: Presentation)
    requires 2 * threshold > |publishers| + f && |faulty| <= f
    requires forall pk :: pk in publishers - faulty ==> SignsOneHistory(crypto, pk, history(pk))
    requires HasQuorum(crypto, publishers, threshold, p.lineage, p.signatures)
    requires HasQuorum(crypto, publishers, threshold, q.lineage, q.signatures)
    ensures Comparable(p.lineage, q.lineage)
  {
    var a := ValidSigners(crypto, publishers, p.lineage, p.signatures);
    var b := ValidSigners(crypto, publishers, q.lineage, q.signatures);
    var pk := HonestInBoth(a, b, publishers, threshold, faulty, f);
    OneHistoryIsComparable(crypto, publishers, pk, history(pk), p, q);
  }

  /** The lineages held after any two runs over the same committee never fork. */
  lemma RunsNeverFork(crypto: Crypto, publishers: set<Hash32>, threshold: nat, faulty: set<Hash32>, f: nat,
                      history: Hash32 -> seq<ModelLineage>, xs: seq<Presentation>, ys: seq<Presentation>)
    requires 2 * threshold > |publishers| + f && |faulty| <= f
    requires forall pk :: pk in publishers - faulty ==> SignsOneHistory(crypto, pk, history(pk))
    requires Held(crypto, publishers, threshold, xs).Some? && Held(crypto, publishers, threshold, ys).Some?
    ensures Comparable(Held(crypto, publishers, threshold, xs).value, Held(crypto, publishers, threshold, ys).value)
  {
    var i := HeldHasQuorum(crypto, publishers, threshold, xs);
    var j := HeldHasQuorum(crypto, publishers, threshold, ys);
    NoForks(crypto, publishers, threshold, faulty, f, history, xs[i], ys[j]);
  }

  // ---------- the bound is tight ----------

  lemma {:induction false} SubsetOfSize(s: set<Hash32>, n: nat) returns (t: set<Hash32>)
    requires n <= |s|
    ensures t <= s && |t| == n
  {
    if n == 0 {
      t := {};
    } else {
      var x :| x in s;
      var rest := SubsetOfSize(s - {x}, n - 1);
      t := rest + {x};
    }
  }

  /** Two quorums that share at most `f` publishers, when 2M <= N + f. */
  lemma BarelyMeetingQuorums(publishers: set<Hash32>, threshold: nat, f: nat) returns (a: set<Hash32>, b: set<Hash32>)
    requires threshold <= |publishers| && 2 * threshold <= |publishers| + f
    ensures a <= publishers && b <= publishers && |a| == |b| == threshold && |a * b| <= f
  {
    a := SubsetOfSize(publishers, threshold);
    var others := publishers - a;
    if threshold <= |others| {
      b := SubsetOfSize(others, threshold);
      assert a * b == {};
    } else {
      var shared := SubsetOfSize(a, threshold - |others|);
      b := others + shared;
      assert a * b == shared;
    }
  }

  const BLANK: Signature := seq(64, i => 0)

  /** Everyone in `keys` signs. */
  lemma {:induction false} SignedByAll(keys: set<Hash32>) returns (sigs: seq<QuorumSignature>)
    ensures forall k :: k in keys ==> QuorumSignature(k, BLANK) in sigs
  {
    if keys == {} {
      sigs := [];
    } else {
      var k :| k in keys;
      var rest := SignedByAll(keys - {k});
      sigs := [QuorumSignature(k, BLANK)] + rest;
    }
  }

  /** Keys in `a` sign exactly `l`, keys in `b` exactly `m`. */
  function TwoCamps(a: set<Hash32>, b: set<Hash32>, l: seq<Byte>, m: seq<Byte>): Crypto {
    Crypto((bytes: seq<Byte>) => seq(32, i => 0),
           (pk: Hash32, message: seq<Byte>, sig: Signature) => (pk in a && message == l) || (pk in b && message == m))
  }

  lemma CampHasQuorum(crypto: Crypto, publishers: set<Hash32>, threshold: nat, camp: set<Hash32>, l: ModelLineage)
    returns (sigs: seq<QuorumSignature>)
    requires camp <= publishers && 0 < threshold <= |camp|
    requires forall pk :: pk in camp ==> crypto.verifies(pk, MessageBytes(l), BLANK)
    ensures HasQuorum(crypto, publishers, threshold, l, sigs)
  {
    sigs := SignedByAll(camp);
    forall pk | pk in camp ensures pk in ValidSigners(crypto, publishers, l, sigs) {
      var s := QuorumSignature(pk, BLANK);
      assert s in sigs && Counts(crypto, publishers, l, s);
    }
    Within(camp, ValidSigners(crypto, publishers, l, sigs));
  }

  lemma CampSignsOneHistory(a: set<Hash32>, b: set<Hash32>, l: ModelLineage, m: ModelLineage, pk: Hash32)
    requires pk !in a * b
    ensures SignsOneHistory(TwoCamps(a, b, MessageBytes(l), MessageBytes(m)), pk, [if pk in a then l else m])
  {
    var snapshots := [if pk in a then l else m];
    forall message, sig | TwoCamps(a, b, MessageBytes(l), MessageBytes(m)).verifies(pk, message, sig)
      ensures exists i :: 0 <= i < |snapshots| && message == MessageBytes(snapshots[i])
    {
      assert message == MessageBytes(snapshots[0]);
    }
  }

  /** Past the bound forks happen: with 2M <= N + f any two lineages at all can
      both reach a quorum, while all but f publishers sign one history each. */
  lemma ForksPastTheBound(publishers: set<Hash32>, threshold: nat, f: nat, l: ModelLineage, m: ModelLineage)
    returns (crypto: Crypto, faulty: set<Hash32>, history: Hash32 -> seq<ModelLineage>, p: Presentation,
             q: Presentation)
    requires 0 < threshold <= |publishers| && 2 * threshold <= |publishers| + f
    ensures |faulty| <= f && p.lineage == l && q.lineage == m
    ensures forall pk :: pk in publishers - faulty ==> SignsOneHistory(crypto, pk, history(pk))
    ensures HasQuorum(crypto, publishers, threshold, p.lineage, p.signatures)
    ensures HasQuorum(crypto, publishers, threshold, q.lineage, q.signatures)
  {
    var a, b := BarelyMeetingQuorums(publishers, threshold, f);
    crypto, faulty := TwoCamps(a, b, MessageBytes(l), MessageBytes(m)), a * b;
    history := pk => [if pk in a then l else m];
    forall pk | pk in publishers - faulty ensures SignsOneHistory(crypto, pk, history(pk)) {
      CampSignsOneHistory(a, b, l, m, pk);
    }
    var x := CampHasQuorum(crypto, publishers, threshold, a, l);
    var y := CampHasQuorum(crypto, publishers, threshold, b, m);
    p, q := Presentation(l, x), Presentation(m, y);
  }

  // ---------- distance ----------

  /** Index of the first epoch with these weights. */
  function PositionOf(l: ModelLineage, w: Hash32): (r: Option<nat>)
    ensures r.Some? ==> r.value < |l.epochs| && l.epochs[r.value].weightsHash == w
    ensures r.Some? ==> forall j :: 0 <= j < r.value ==> l.epochs[j].weightsHash != w
    ensures r.None? ==> forall j :: 0 <= j < |l.epochs| ==> l.epochs[j].weightsHash != w
    decreases |l.epochs|
  {
    if |l.epochs| == 0 then None
    else if l.epochs[0].weightsHash == w then Some(0)
    else
      var rest := ModelLineage(l.epochs[1..]);
      assert forall j :: 0 < j < |l.epochs| ==> l.epochs[j] == rest.epochs[j-1];
      match PositionOf(rest, w)
      case Some(i) => Some(i + 1)
      case None => None
  }

  /** Index of the last epoch activated at or before `block`. */
  function CanonicalPositionAt(l: ModelLineage, block: U64): (r: Option<nat>)
    ensures r.Some? ==> r.value < |l.epochs| && l.epochs[r.value].activationBlock <= block
    ensures r.Some? ==> forall j :: r.value < j < |l.epochs| ==> l.epochs[j].activationBlock > block
    ensures r.None? ==> forall j :: 0 <= j < |l.epochs| ==> l.epochs[j].activationBlock > block
    decreases |l.epochs|
  {
    var n := |l.epochs|;
    if n == 0 then None
    else if l.epochs[n-1].activationBlock <= block then Some(n - 1)
    else CanonicalPositionAt(ModelLineage(l.epochs[..n-1]), block)
  }

  /** `model_epoch_distance` on the held lineage. */
  function Distance(held: Option<ModelLineage>, w: Hash32, height: U64): Result<nat> {
    if held.None? then Err(OracleUnavailable)
    else
      var p, c := PositionOf(held.value, w), CanonicalPositionAt(held.value, height);
      if p.None? || c.None? then Err(OracleUnavailable)
      else Ok(if c.value < p.value then 0 else c.value - p.value)
  }

  /** Within a threshold exactly when some epoch is active and none more than
      `limit` positions past the committed model is. */
  lemma DistanceWithin(l: ModelLineage, w: Hash32, height: U64, limit: nat)
    ensures var d := Distance(Some(l), w, height);
      (d.Ok? && d.value <= limit) <==>
        && PositionOf(l, w).Some?
        && (exists i :: 0 <= i < |l.epochs| && l.epochs[i].activationBlock <= height)
        && (forall i :: PositionOf(l, w).value + limit < i < |l.epochs| ==> l.epochs[i].activationBlock > height)
  {}

  /** There is no distance exactly without a lineage, for a model not in it, or
      before any epoch is active; all three read as unavailable. */
  lemma DistanceErrsIff(held: Option<ModelLineage>, w: Hash32, height: U64)
    ensures Distance(held, w, height).Err? <==>
      || held.None?
      || (forall i :: 0 <= i < |held.value.epochs| ==> held.value.epochs[i].weightsHash != w)
      || (forall i :: 0 <= i < |held.value.epochs| ==> held.value.epochs[i].activationBlock > height)
    ensures Distance(held, w, height).Err? ==> Distance(held, w, height) == Err(OracleUnavailable)
  {}

  /** The distance never shrinks as the chain grows, and is below the lineage length. */
  lemma DistanceGrowsWithHeight(l: ModelLineage, w: Hash32, h: U64, h': U64)
    requires h <= h' && Distance(Some(l), w, h).Ok?
    ensures Distance(Some(l), w, h').Ok?
    ensures Distance(Some(l), w, h).value <= Distance(Some(l), w, h').value < |l.epochs|
  {}

  /** Appending later epochs never makes a model fresher. */
  lemma DistanceGrowsWithLineage(l: ModelLineage, more: seq<ModelEpoch>, w: Hash32, h: U64)
    requires Distance(Some(l), w, h).Ok?
    ensures var longer := ModelLineage(l.epochs + more);
      Distance(Some(longer), w, h).Ok? && Distance(Some(l), w, h).value <= Distance(Some(longer), w, h).value
  {
    var longer := ModelLineage(l.epochs + more);
    assert forall i :: 0 <= i < |l.epochs| ==> longer.epochs[i] == l.epochs[i];
    var p, c := PositionOf(l, w).value, CanonicalPositionAt(l, h).value;
    assert longer.epochs[p].weightsHash == w && longer.epochs[c].activationBlock <= h;
    assert PositionOf(longer, w) == Some(p);
  }

  /** How many of the epochs are active at `height`. */
  function ActiveCount(epochs: seq<ModelEpoch>, height: U64): nat {
    if |epochs| == 0 then 0
    else (if epochs[0].activationBlock <= height then 1 else 0) + ActiveCount(epochs[1..], height)
  }

  /** With nothing active from position `n` on, at most `n` epochs are active,
      and `n` of them exactly when all of the first `n` are. */
  lemma {:induction false} ActiveCountBounded(epochs: seq<ModelEpoch>, height: U64, n: nat)
    requires n <= |epochs|
    requires forall i :: n <= i < |epochs| ==> epochs[i].activationBlock > height
    ensures ActiveCount(epochs, height) <= n
    ensures ActiveCount(epochs, height) == n <==> forall i :: 0 <= i < n ==> epochs[i].activationBlock <= height
  {
    if |epochs| == 0 {
    } else {
      var rest := epochs[1..];
      assert forall i :: 0 <= i < |rest| ==> rest[i] == epochs[i+1];
      ActiveCountBounded(rest, height, if n == 0 then 0 else n - 1);
      if n > 0 {
        assert (forall i :: 0 <= i < n ==> epochs[i].activationBlock <= height) <==>
          epochs[0].activationBlock <= height && (forall i :: 0 <= i < n - 1 ==> rest[i].activationBlock <= height);
      }
    }
  }

  /** Every epoch after position `p` up to position `c` is active. */
  ghost predicate AllActive(l: ModelLineage, p: nat, c: nat, h: U64)
    requires c < |l.epochs|
  {
    forall i :: p < i <= c ==> l.epochs[i].activationBlock <= h
  }

  lemma CountsBetween(l: ModelLineage, p: nat, c: nat, h: U64)
    requires p < |l.epochs| && c < |l.epochs|
    requires forall i :: c < i < |l.epochs| ==> l.epochs[i].activationBlock > h
    ensures ActiveCount(l.epochs[p+1..], h) == (if c < p then 0 else c - p) <==> AllActive(l, p, c, h)
  {
    var after := l.epochs[p+1..];
    var n := if c < p then 0 else c - p;
    assert forall i :: 0 <= i < |after| ==> after[i] == l.epochs[p+1+i];
    ActiveCountBounded(after, h, n);
    if forall i :: 0 <= i < n ==> after[i].activationBlock <= h {
      forall i | p < i <= c ensures l.epochs[i].activationBlock <= h {
        assert after[i - p - 1] == l.epochs[i];
      }
    }
  }

  /** The distance is the number of activated epochs placed after the committed
      model exactly when every epoch from there to the canonical one is active. */
  lemma DistanceCountsIff(l: ModelLineage, w: Hash32, h: U64)
    requires Distance(Some(l), w, h).Ok?
    ensures Distance(Some(l), w, h).value == ActiveCount(l.epochs[PositionOf(l, w).value + 1..], h)
       <==> AllActive(l, PositionOf(l, w).value, CanonicalPositionAt(l, h).value, h)
  {
    CountsBetween(l, PositionOf(l, w).value, CanonicalPositionAt(l, h).value, h);
  }

  /** So it is whenever activation blocks never decrease along the lineage. */
  lemma DistanceCountsActivations(l: ModelLineage, w: Hash32, h: U64)
    requires forall i, j :: 0 <= i < j < |l.epochs| ==> l.epochs[i].activationBlock <= l.epochs[j].activationBlock
    requires Distance(Some(l), w, h).Ok?
    ensures Distance(Some(l), w, h).value == ActiveCount(l.epochs[PositionOf(l, w).value + 1..], h)
  {
    DistanceCountsIff(l, w, h);
  }
}
