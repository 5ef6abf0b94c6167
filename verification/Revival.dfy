/** Perishability when the registries change between verdicts: a growing lineage
    and further witnesses never bring a lapsed commitment back, while replaying
    an older lineage or a witness with moved anchors can. */
module Revival {
  import opened Types
  import opened Anchor
  import opened Context
  import opened Commitment
  import opened ModelRegistry
  import opened InputFreshness
  import opened Registries
  import opened Settlement
  import opened Perishability

  // ---------- registries that only grow ----------

  /** `w` holds at least the epochs `v` does, in the same places. */
  predicate Extends(w: Option<ModelLineage>, v: Option<ModelLineage>) {
    v.Some? ==> w.Some? && v.value.epochs <= w.value.epochs
  }

  /** The lineage has only grown, and the witness under `r` is the one it was. */
  predicate Grown(v: OracleView, w: OracleView, r: Hash32) {
    && Extends(w.lineage, v.lineage)
    && (r in v.witnesses ==> r in w.witnesses && w.witnesses[r] == v.witnesses[r])
    && w.enforceHorizon == v.enforceHorizon && w.realAnchors == v.realAnchors
  }

  /** The distance of a model grows with the lineage and the height together. */
  lemma DistanceGrows(v: Option<ModelLineage>, w: Option<ModelLineage>, weights: Hash32, h: U64, h': U64)
    requires Extends(w, v) && h <= h' && Distance(v, weights, h).Ok?
    ensures Distance(w, weights, h').Ok? && Distance(v, weights, h).value <= Distance(w, weights, h').value
  {
    var more := w.value.epochs[|v.value.epochs|..];
    assert w.value == ModelLineage(v.value.epochs + more);
    DistanceGrowsWithLineage(v.value, more, weights, h);
    DistanceGrowsWithHeight(w.value, weights, h, h');
  }

  /** A model fresh before and after is fresh in between. */
  lemma ModelFreshBetween(u: OracleView, v: OracleView, w: OracleView, root: ExecutionContextRoot,
                          a: TripleAnchor, b: TripleAnchor, c: TripleAnchor, th: Thresholds)
    requires Extends(v.lineage, u.lineage) && Extends(w.lineage, v.lineage)
    requires a.blockHeight <= b.blockHeight <= c.blockHeight
    requires ModelFresh(u, root, a, th) && ModelFresh(w, root, c, th)
    ensures ModelFresh(v, root, b, th)
  {
    DistanceGrows(u.lineage, v.lineage, root.weightsHash, a.blockHeight, b.blockHeight);
    DistanceGrows(v.lineage, w.lineage, root.weightsHash, b.blockHeight, c.blockHeight);
  }

  /** Inputs fresh before and after are fresh in between. */
  lemma InputFreshBetween(u: OracleView, v: OracleView, w: OracleView, root: ExecutionContextRoot,
                          a: TripleAnchor, b: TripleAnchor, c: TripleAnchor, th: Thresholds)
    requires Grown(u, v, root.inputManifestRoot) && Grown(v, w, root.inputManifestRoot)
    requires b.blockHeight <= c.blockHeight
    requires InputFresh(u, root, a, th) && InputFresh(w, root, c, th)
    ensures InputFresh(v, root, b, th)
  {
    FreshMeansKnown(u, root, a, th);
    InputWindow(v, root, b, th);
    InputWindow(w, root, c, th);
    assert InputEnds(w, root, th) == InputEnds(v, root, th);
  }

  /** Along a clock that never runs backwards, while the lineage only grows and
      the committed witness stays in place, a commitment that has cleared and
      then lapsed never clears again, whatever else the registries take in. */
  lemma PerishesWhileRegistriesGrow(crypto: Crypto, views: seq<OracleView>, clock: seq<TripleAnchor>,
                                    c: FreshnessCommitment, root: ExecutionContextRoot, th: Thresholds,
                                    i: nat, j: nat, k: nat)
    requires |views| == |clock| && i < j < k < |clock|
    requires forall m, n :: 0 <= m < n < |clock| ==> clock[m].blockHeight <= clock[n].blockHeight
    requires forall m, n :: 0 <= m < n < |views| ==> Grown(views[m], views[n], root.inputManifestRoot)
    requires Settle(crypto, views[i], c, root, clock[i], th) == Ok(Clear)
    requires Settle(crypto, views[j], c, root, clock[j], th) != Ok(Clear)
    ensures Settle(crypto, views[k], c, root, clock[k], th) != Ok(Clear)
  {
    if Settle(crypto, views[k], c, root, clock[k], th) == Ok(Clear) {
      ClearBetween(crypto, views[i], views[j], views[k], c, root, clock[i], clock[j], clock[k], th);
    }
  }

  lemma ClearBetween(crypto: Crypto, u: OracleView, v: OracleView, w: OracleView, c: FreshnessCommitment,
                     root: ExecutionContextRoot, x: TripleAnchor, y: TripleAnchor, z: TripleAnchor, th: Thresholds)
    requires Grown(u, v, root.inputManifestRoot) && Grown(v, w, root.inputManifestRoot)
    requires x.blockHeight <= y.blockHeight <= z.blockHeight
    requires Settle(crypto, u, c, root, x, th) == Ok(Clear) && Settle(crypto, w, c, root, z, th) == Ok(Clear)
    ensures Settle(crypto, v, c, root, y, th) == Ok(Clear)
  {
    ClearMeansNoAxisFails(crypto, u, c, root, x, th);
    ClearMeansNoAxisFails(crypto, v, c, root, y, th);
    ClearMeansNoAxisFails(crypto, w, c, root, z, th);
    ModelFreshBetween(u, v, w, root, x, y, z, th);
    InputFreshBetween(u, v, w, root, x, y, z, th);
  }

  // ---------- runs of both registries ----------

  datatype Step = LineageStep(p: Presentation) | WitnessStep(blocks: seq<Result<InputAttestation>>)

  /** Who publishes, who may sign for inputs, and how the oracles are set up. */
  datatype Setup = Setup(crypto: Crypto, publishers: set<Hash32>, threshold: nat, pin: Option<Hash32>,
                         enforceHorizon: bool, realAnchors: bool)
  {
    function Adopts(p: Presentation): Option<ModelLineage> {
      Adopted(crypto, publishers, threshold, p)
    }

    /** One presentation, as `PresentLineage` and `PresentWitness` carry it out. */
    function After(v: OracleView, step: Step): OracleView {
      match step
      case LineageStep(p) => v.(lineage := OrElse(Adopts(p), v.lineage))
      case WitnessStep(blocks) => v.(witnesses := Put(v.witnesses, Accepted(crypto, pin, blocks)))
    }

    /** What the oracles know after the first `n` presentations of a run. */
    function ViewAt(steps: seq<Step>, n: nat): OracleView
      requires n <= |steps|
    {
      if n == 0 then OracleView(None, map[], enforceHorizon, realAnchors) else After(ViewAt(steps, n - 1), steps[n-1])
    }
  }

  /** All but `f` publishers sign one growing history each, and quorums overlap
      in more than `f`. */
  ghost predicate Committee(s: Setup, faulty: set<Hash32>, f: nat, history: Hash32 -> seq<ModelLineage>) {
    && 2 * s.threshold > |s.publishers| + f && |faulty| <= f
    && forall pk :: pk in s.publishers - faulty ==> SignsOneHistory(s.crypto, pk, history(pk))
  }

  /** The presentation adopts a proper prefix of the lineage held. */
  predicate RollsBack(s: Setup, v: OracleView, step: Step) {
    && step.LineageStep? && s.Adopts(step.p).Some? && v.lineage.Some?
    && step.p.lineage.epochs < v.lineage.value.epochs
  }

  /** The presentation replaces the witness held under `r` by another. */
  predicate Swaps(s: Setup, v: OracleView, step: Step, r: Hash32) {
    && r in v.witnesses
    && s.After(v, step).witnesses[r] != v.witnesses[r]
  }

  /** A held lineage had a quorum. */
  lemma {:induction false} HeldAlongRun(s: Setup, steps: seq<Step>, n: nat) returns (p: Presentation)
    requires n <= |steps| && s.ViewAt(steps, n).lineage.Some?
    ensures s.ViewAt(steps, n).lineage == Some(p.lineage)
    ensures HasQuorum(s.crypto, s.publishers, s.threshold, p.lineage, p.signatures)
  {
    var step := steps[n-1];
    if step.LineageStep? && s.Adopts(step.p).Some? {
      p := step.p;
    } else {
      p := HeldAlongRun(s, steps, n - 1);
    }
  }

  /** Under an honest committee a step that does not roll back extends the lineage. */
  lemma StepExtends(s: Setup, steps: seq<Step>, n: nat, faulty: set<Hash32>, f: nat,
                    history: Hash32 -> seq<ModelLineage>)
    requires n < |steps| && Committee(s, faulty, f, history)
    requires !RollsBack(s, s.ViewAt(steps, n), steps[n])
    ensures Extends(s.ViewAt(steps, n + 1).lineage, s.ViewAt(steps, n).lineage)
  {
    var v, step := s.ViewAt(steps, n), steps[n];
    if step.LineageStep? && s.Adopts(step.p).Some? && v.lineage.Some? {
      var held := HeldAlongRun(s, steps, n);
      NoForks(s.crypto, s.publishers, s.threshold, faulty, f, history, held, step.p);
    }
  }

  lemma StepGrows(s: Setup, steps: seq<Step>, n: nat, r: Hash32, faulty: set<Hash32>, f: nat,
                  history: Hash32 -> seq<ModelLineage>)
    requires n < |steps| && Committee(s, faulty, f, history)
    requires !RollsBack(s, s.ViewAt(steps, n), steps[n]) && !Swaps(s, s.ViewAt(steps, n), steps[n], r)
    ensures Grown(s.ViewAt(steps, n), s.ViewAt(steps, n + 1), r)
  {
    StepExtends(s, steps, n, faulty, f, history);
  }

  lemma GrownTwice(u: OracleView, v: OracleView, w: OracleView, r: Hash32)
    requires Grown(u, v, r) && Grown(v, w, r)
    ensures Grown(u, w, r)
  {}

  /** Between positions `m` and `n` of the run something is rolled back, or the
      witness under `r` is swapped. */
  ghost predicate Disturbed(s: Setup, steps: seq<Step>, r: Hash32, m: nat, n: nat)
    requires n <= |steps|
  {
    exists t :: m <= t < n && (RollsBack(s, s.ViewAt(steps, t), steps[t]) || Swaps(s, s.ViewAt(steps, t), steps[t], r))
  }

  lemma {:induction false} UndisturbedGrows(s: Setup, steps: seq<Step>, r: Hash32, m: nat, n: nat,
                                            faulty: set<Hash32>, f: nat, history: Hash32 -> seq<ModelLineage>)
    requires m <= n <= |steps| && Committee(s, faulty, f, history) && !Disturbed(s, steps, r, m, n)
    ensures Grown(s.ViewAt(steps, m), s.ViewAt(steps, n), r)
    decreases n - m
  {
    if m == n {
    } else {
      assert !Disturbed(s, steps, r, m, n - 1);
      UndisturbedGrows(s, steps, r, m, n - 1, faulty, f, history);
      StepGrows(s, steps, n - 1, r, faulty, f, history);
      GrownTwice(s.ViewAt(steps, m), s.ViewAt(steps, n - 1), s.ViewAt(steps, n), r);
    }
  }

  /** Perishability over every run of both registries: under an honest committee
      and a forward clock, a commitment that clears, lapses and clears again does
      so only if in between a prefix of the held lineage was adopted again or the
      committed witness was swapped under its root. */
  lemma RevivalNeedsReplay(s: Setup, steps: seq<Step>, faulty: set<Hash32>, f: nat,
                           history: Hash32 -> seq<ModelLineage>,
                           c: FreshnessCommitment, root: ExecutionContextRoot, th: Thresholds,
                           m: nat, n: nat, o: nat, x: TripleAnchor, y: TripleAnchor, z: TripleAnchor)
    requires m <= n <= o <= |steps| && Committee(s, faulty, f, history)
    requires x.blockHeight <= y.blockHeight <= z.blockHeight
    requires Settle(s.crypto, s.ViewAt(steps, m), c, root, x, th) == Ok(Clear)
    requires Settle(s.crypto, s.ViewAt(steps, n), c, root, y, th) != Ok(Clear)
    requires Settle(s.crypto, s.ViewAt(steps, o), c, root, z, th) == Ok(Clear)
    ensures Disturbed(s, steps, root.inputManifestRoot, m, o)
  {
    var r := root.inputManifestRoot;
    if !Disturbed(s, steps, r, m, o) {
      assert !Disturbed(s, steps, r, m, n) && !Disturbed(s, steps, r, n, o);
      UndisturbedGrows(s, steps, r, m, n, faulty, f, history);
      UndisturbedGrows(s, steps, r, n, o, faulty, f, history);
      ClearBetween(s.crypto, s.ViewAt(steps, m), s.ViewAt(steps, n), s.ViewAt(steps, o), c, root, x, y, z, th);
    }
  }

  // ---------- presentations that do bring a commitment back ----------

  /** Everything but the model axis passes. */
  predicate OnlyModelOpen(crypto: Crypto, v: OracleView, c: FreshnessCommitment, root: ExecutionContextRoot,
                          now: TripleAnchor, th: Thresholds) {
    && Integrity(crypto, c, root) && c.anchor.InternallyConsistent(th, v.realAnchors)
    && SettlesInWindow(c, now, th) && InputFresh(v, root, now, th)
  }

  /** Everything but the input axis passes. */
  predicate OnlyInputOpen(crypto: Crypto, v: OracleView, c: FreshnessCommitment, root: ExecutionContextRoot,
                          now: TripleAnchor, th: Thresholds) {
    && Integrity(crypto, c, root) && c.anchor.InternallyConsistent(th, v.realAnchors)
    && SettlesInWindow(c, now, th) && ModelFresh(v, root, now, th)
  }

  /** The first `n` epochs know the model, have an active one, and none active
      more than `limit` positions past it. */
  ghost predicate PrefixFresh(l: ModelLineage, n: nat, p: nat, limit: nat, height: U64) {
    && p < n <= |l.epochs|
    && (exists i :: 0 <= i < n && l.epochs[i].activationBlock <= height)
    && (forall i :: p + limit < i < n ==> l.epochs[i].activationBlock > height)
  }

  /** `present_lineage` has no recency check: adopting again the first `n`
      epochs of the held lineage makes a commitment whose other axes pass clear
      exactly when those epochs know its model and outdate it no more than
      allowed, however far the held lineage had moved on. */
  lemma ReplayedPrefixClearsIff(crypto: Crypto, v: OracleView, l: ModelLineage, n: nat, p: nat, c: FreshnessCommitment,
                                root: ExecutionContextRoot, now: TripleAnchor, th: Thresholds)
    requires OnlyModelOpen(crypto, v, c, root, now, th)
    requires n <= |l.epochs| && PositionOf(l, root.weightsHash) == Some(p)
    ensures Settle(crypto, v.(lineage := Some(ModelLineage(l.epochs[..n]))), c, root, now, th) == Ok(Clear)
       <==> PrefixFresh(l, n, p, th.maxFmEpochs, now.blockHeight)
  {
    var w := v.(lineage := Some(ModelLineage(l.epochs[..n])));
    ClearMeansNoAxisFails(crypto, w, c, root, now, th);
    PrefixModelFreshIff(w, l, n, p, root, now, th);
  }

  lemma PrefixModelFreshIff(w: OracleView, l: ModelLineage, n: nat, p: nat, root: ExecutionContextRoot,
                            now: TripleAnchor, th: Thresholds)
    requires n <= |l.epochs| && PositionOf(l, root.weightsHash) == Some(p)
    requires w.lineage == Some(ModelLineage(l.epochs[..n]))
    ensures ModelFresh(w, root, now, th) <==> PrefixFresh(l, n, p, th.maxFmEpochs, now.blockHeight)
  {
    var older, h := w.lineage.value, now.blockHeight;
    PrefixPosition(l, n, root.weightsHash, p);
    DistanceWithin(older, root.weightsHash, h, th.maxFmEpochs);
    if p < n {
      ActiveInPrefix(older, l, n, h);
      InactiveInPrefix(older, l, n, p + th.maxFmEpochs, h);
    }
  }

  lemma ActiveInPrefix(older: ModelLineage, l: ModelLineage, n: nat, h: U64)
    requires n <= |l.epochs| && older.epochs == l.epochs[..n]
    ensures (exists i :: 0 <= i < n && l.epochs[i].activationBlock <= h)
       <==> (exists i :: 0 <= i < |older.epochs| && older.epochs[i].activationBlock <= h)
  {
    if i :| 0 <= i < n && l.epochs[i].activationBlock <= h {
      assert older.epochs[i] == l.epochs[i];
    }
  }

  lemma InactiveInPrefix(older: ModelLineage, l: ModelLineage, n: nat, from: nat, h: U64)
    requires n <= |l.epochs| && older.epochs == l.epochs[..n]
    ensures (forall i :: from < i < n ==> l.epochs[i].activationBlock > h)
       <==> (forall i :: from < i < |older.epochs| ==> older.epochs[i].activationBlock > h)
  {
    assert forall i :: 0 <= i < n ==> older.epochs[i] == l.epochs[i];
  }

  lemma PrefixPosition(l: ModelLineage, n: nat, w: Hash32, p: nat)
    requires n <= |l.epochs| && PositionOf(l, w) == Some(p)
    ensures PositionOf(ModelLineage(l.epochs[..n]), w) == if p < n then Some(p) else None
  {
    var older := ModelLineage(l.epochs[..n]);
    if p < n {
      assert older.epochs[p].weightsHash == w;
    }
  }

  /** The decoded blocks a witness's attestations came from. */
  function BlocksOf(atts: seq<InputAttestation>): (r: seq<Result<InputAttestation>>)
    ensures |r| == |atts| && forall i :: 0 <= i < |r| ==> r[i] == Ok(atts[i])
  {
    seq(|atts|, i requires 0 <= i < |atts| => Ok(atts[i]))
  }

  /** Presenting admitted attestations again with every anchor moved replaces
      the witness under the same root. */
  lemma MovedWitnessReplaces(crypto: Crypto, pin: Option<Hash32>, atts: seq<InputAttestation>, block: U64)
    requires |atts| > 0 && AllAdmitted(crypto, pin, atts)
    ensures Accepted(crypto, pin, BlocksOf(Moved(atts, block)))
         == Some((ManifestRoot(crypto, InputFreshnessWitness(atts)), InputFreshnessWitness(Moved(atts, block))))
  {
    SameButAnchorsStayAdmitted(crypto, pin, Moved(atts, block), atts);
    MovedKeepsManifest(atts, block);
    AdmittedIsAccepted(crypto, pin, Moved(atts, block));
  }

  /** A nonempty list of admitted attestations is accepted under its manifest root. */
  lemma AdmittedIsAccepted(crypto: Crypto, pin: Option<Hash32>, atts: seq<InputAttestation>)
    requires |atts| > 0 && AllAdmitted(crypto, pin, atts)
    ensures var w := InputFreshnessWitness(atts);
      Accepted(crypto, pin, BlocksOf(atts)) == Some((ManifestRoot(crypto, w), w))
  {
    WitnessBuiltIff(crypto, pin, BlocksOf(atts));
    var built := FromPocBlocks(crypto, pin, BlocksOf(atts)).value.attestations;
    assert forall i :: 0 <= i < |atts| ==> BlocksOf(atts)[i] == Ok(built[i]);
    assert built == atts;
  }

  /** `present_witness` has no recency check either: re-presenting the stored
      attestations with anchors moved to `block` makes a commitment whose other
      axes pass clear exactly when the lag from `block` is allowed by the
      threshold and, under enforcement, by every horizon. At `block == now` it
      always is. */
  lemma MovedWitnessClearsIff(crypto: Crypto, v: OracleView, c: FreshnessCommitment, root: ExecutionContextRoot,
                              atts: seq<InputAttestation>, block: U64, now: TripleAnchor, th: Thresholds)
    requires OnlyInputOpen(crypto, v, c, root, now, th)
    requires |atts| > 0 && block <= now.blockHeight
    ensures Settle(crypto, Replaced(v, root.inputManifestRoot, Moved(atts, block)), c, root, now, th) == Ok(Clear)
       <==> now.blockHeight - block <= th.maxFiBlocks && HorizonsAllow(atts, now.blockHeight - block, v.enforceHorizon)
  {
    var w, lag := Replaced(v, root.inputManifestRoot, Moved(atts, block)), now.blockHeight - block;
    ClearMeansNoAxisFails(crypto, w, c, root, now, th);
    MovedLag(atts, block, lag, v.enforceHorizon, v.realAnchors);
    MovedAnswersOnlyItsLag(atts, block, lag, v.enforceHorizon, v.realAnchors);
  }

  function Replaced(v: OracleView, r: Hash32, atts: seq<InputAttestation>): OracleView {
    v.(witnesses := v.witnesses[r := InputFreshnessWitness(atts)])
  }

  lemma MovedAnswersOnlyItsLag(atts: seq<InputAttestation>, block: U64, lag: U64, enforce: bool, realAnchors: bool)
    requires |atts| > 0 && block + lag < TWO_64
    ensures var r := Lag(InputFreshnessWitness(Moved(atts, block)), block + lag, enforce, realAnchors);
      r.Ok? ==> r.value == lag
  {
    var ms := Moved(atts, block);
    LagIsLargestSourceLag(InputFreshnessWitness(ms), block + lag, enforce, realAnchors);
    assert forall i :: 0 <= i < |ms| ==> ms[i] == Reanchored(atts[i], block);
  }
}
