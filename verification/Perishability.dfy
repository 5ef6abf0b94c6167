/** When does a commitment clear? For fixed oracle contents the clearing heights
    are one interval, computed here from the commitment, the lineage and the
    witness; past its end the commitment never clears again. */
module Perishability {
  import opened Types
  import opened Anchor
  import opened Context
  import opened Commitment
  import opened ModelRegistry
  import opened InputFreshness
  import opened Registries
  import opened Settlement
  import opened Bounds

  function Earliest(a: int, xs: seq<int>, ys: seq<int>): int {
    Least([a] + xs + ys)
  }

  lemma EarliestBounds(a: int, xs: seq<int>, ys: seq<int>, h: int)
    ensures h <= Earliest(a, xs, ys) <==> h <= a && NoneBefore(xs, h) && NoneBefore(ys, h)
  {
    var all := [a] + xs + ys;
    LeastBounds(all, h);
    assert forall x :: x in all <==> x == a || x in xs || x in ys;
  }

  // ---------- the ends of the interval ----------

  function Activations(epochs: seq<ModelEpoch>): (r: seq<int>)
    ensures |r| == |epochs| && forall i :: 0 <= i < |r| ==> r[i] == epochs[i].activationBlock
  {
    seq(|epochs|, i requires 0 <= i < |epochs| => epochs[i].activationBlock)
  }

  /** The epochs that outdate a model at position `p`: more than `limit` places after it. */
  function Superseding(l: ModelLineage, p: nat, limit: nat): seq<ModelEpoch> {
    if p + limit + 1 <= |l.epochs| then l.epochs[p + limit + 1..] else []
  }

  /** The last height at which each superseding epoch is still inactive. */
  function SupersededAfter(l: ModelLineage, p: nat, limit: nat): (r: seq<int>)
    ensures |r| == |Superseding(l, p, limit)|
    ensures forall i :: 0 <= i < |r| ==> r[i] == Superseding(l, p, limit)[i].activationBlock - 1
  {
    var s := Superseding(l, p, limit);
    seq(|s|, i requires 0 <= i < |s| => s[i].activationBlock - 1)
  }

  /** The last height at which a source is fresh enough, and within its own horizon. */
  function SourceDeadline(att: InputAttestation, limit: nat, enforce: bool, realAnchors: bool): int
    requires att.AsOfBlock(realAnchors).Ok?
  {
    att.AsOfBlock(realAnchors).value + (if enforce then Min(limit, att.freshnessHorizonSecs / 2) else limit)
  }

  function Deadlines(atts: seq<InputAttestation>, limit: nat, enforce: bool, realAnchors: bool): (r: seq<int>)
    requires forall i :: 0 <= i < |atts| ==> atts[i].AsOfBlock(realAnchors).Ok?
    ensures |r| == |atts| && forall i :: 0 <= i < |r| ==> r[i] == SourceDeadline(atts[i], limit, enforce, realAnchors)
  {
    seq(|atts|, i requires 0 <= i < |atts| => SourceDeadline(atts[i], limit, enforce, realAnchors))
  }

  // ---------- what no height changes ----------

  predicate Integrity(crypto: Crypto, c: FreshnessCommitment, root: ExecutionContextRoot) {
    Verify(crypto, c).Ok? && Binds(crypto, c, root)
  }

  predicate ModelKnown(v: OracleView, root: ExecutionContextRoot) {
    v.lineage.Some? && PositionOf(v.lineage.value, root.weightsHash).Some?
  }

  predicate InputKnown(v: OracleView, root: ExecutionContextRoot) {
    && root.inputManifestRoot in v.witnesses
    && var atts := v.witnesses[root.inputManifestRoot].attestations;
       |atts| > 0 && forall i :: 0 <= i < |atts| ==> atts[i].AsOfBlock(v.realAnchors).Ok?
  }

  /** The conditions a commitment meets at every height or at none. */
  predicate Eligible(crypto: Crypto, v: OracleView, c: FreshnessCommitment, root: ExecutionContextRoot,
                     th: Thresholds) {
    && Integrity(crypto, c, root)
    && c.anchor.InternallyConsistent(th, v.realAnchors)
    && ModelKnown(v, root)
    && InputKnown(v, root)
  }

  /** The commit height or the earliest activation, whichever is later. */
  function Opens(v: OracleView, c: FreshnessCommitment, root: ExecutionContextRoot): int
    requires ModelKnown(v, root)
  {
    Max(c.anchor.blockHeight, Least(Activations(v.lineage.value.epochs)))
  }

  /** The end of the settlement window, the earliest source deadline, or the
      last height before the model is superseded, whichever is first. */
  function Closes(v: OracleView, c: FreshnessCommitment, root: ExecutionContextRoot, th: Thresholds): int
    requires ModelKnown(v, root) && InputKnown(v, root)
  {
    Earliest(c.anchor.blockHeight + th.maxFsBlocks, ModelEnds(v, root, th), InputEnds(v, root, th))
  }

  function ModelEnds(v: OracleView, root: ExecutionContextRoot, th: Thresholds): seq<int>
    requires ModelKnown(v, root)
  {
    SupersededAfter(v.lineage.value, PositionOf(v.lineage.value, root.weightsHash).value, th.maxFmEpochs)
  }

  function InputEnds(v: OracleView, root: ExecutionContextRoot, th: Thresholds): seq<int>
    requires InputKnown(v, root)
  {
    Deadlines(v.witnesses[root.inputManifestRoot].attestations, th.maxFiBlocks, v.enforceHorizon, v.realAnchors)
  }

  // ---------- each axis is a bound on the height ----------

  lemma ModelWindow(v: OracleView, root: ExecutionContextRoot, now: TripleAnchor, th: Thresholds)
    requires ModelKnown(v, root)
    ensures ModelFresh(v, root, now, th) <==>
        && Least(Activations(v.lineage.value.epochs)) <= now.blockHeight
        && NoneBefore(ModelEnds(v, root, th), now.blockHeight)
  {
    var l := v.lineage.value;
    var p, h := PositionOf(l, root.weightsHash).value, now.blockHeight;
    DistanceWithin(l, root.weightsHash, h, th.maxFmEpochs);
    SomeActive(l.epochs, h);
    SupersededHeights(l, p, th.maxFmEpochs, h);
  }

  lemma SomeActive(epochs: seq<ModelEpoch>, h: U64)
    requires |epochs| > 0
    ensures (exists i :: 0 <= i < |epochs| && epochs[i].activationBlock <= h) <==> Least(Activations(epochs)) <= h
  {
    var acts := Activations(epochs);
    LeastBounds(acts, Least(acts));
    if Least(acts) <= h {
      var i :| 0 <= i < |acts| && acts[i] == Least(acts);
      assert epochs[i].activationBlock <= h;
    }
    forall i | 0 <= i < |epochs| && epochs[i].activationBlock <= h ensures Least(acts) <= h {
      assert acts[i] in acts;
    }
  }

  lemma SupersededHeights(l: ModelLineage, p: nat, limit: nat, h: U64)
    ensures (forall i :: p + limit < i < |l.epochs| ==> l.epochs[i].activationBlock > h)
       <==> NoneBefore(SupersededAfter(l, p, limit), h)
  {
    var ends, later := SupersededAfter(l, p, limit), Superseding(l, p, limit);
    if forall x :: x in ends ==> h <= x {
      forall i | p + limit < i < |l.epochs| ensures l.epochs[i].activationBlock > h {
        assert later[i - p - limit - 1] == l.epochs[i];
        assert ends[i - p - limit - 1] in ends;
      }
    }
    if forall i :: p + limit < i < |l.epochs| ==> l.epochs[i].activationBlock > h {
      forall x | x in ends ensures h <= x {
        var k :| 0 <= k < |ends| && ends[k] == x;
        assert later[k] == l.epochs[p + limit + 1 + k];
      }
    }
  }

  lemma InputWindow(v: OracleView, root: ExecutionContextRoot, now: TripleAnchor, th: Thresholds)
    requires InputKnown(v, root)
    ensures InputFresh(v, root, now, th) <==> NoneBefore(InputEnds(v, root, th), now.blockHeight)
  {
    var w := v.witnesses[root.inputManifestRoot];
    var atts, h := w.attestations, now.blockHeight;
    var ends := Deadlines(atts, th.maxFiBlocks, v.enforceHorizon, v.realAnchors);
    LagIsLargestSourceLag(w, h, v.enforceHorizon, v.realAnchors);
    if NoneBefore(ends, h) {
      forall i | 0 <= i < |atts|
        ensures Answers(atts[i], h, v.enforceHorizon, v.realAnchors)
        ensures SourceLag(atts[i], h, v.realAnchors) <= th.maxFiBlocks
      {
        assert ends[i] in ends;
        WithinDeadline(atts[i], h, th.maxFiBlocks, v.enforceHorizon, v.realAnchors);
      }
    }
    if InputFresh(v, root, now, th) {
      forall x | x in ends ensures h <= x {
        var i :| 0 <= i < |ends| && ends[i] == x;
        WithinDeadline(atts[i], h, th.maxFiBlocks, v.enforceHorizon, v.realAnchors);
      }
    }
  }

  lemma WithinDeadline(att: InputAttestation, h: U64, limit: nat, enforce: bool, realAnchors: bool)
    requires att.AsOfBlock(realAnchors).Ok?
    ensures h <= SourceDeadline(att, limit, enforce, realAnchors)
       <==> Answers(att, h, enforce, realAnchors) && SourceLag(att, h, realAnchors) <= limit
  {}

  lemma ClearMeansNoAxisFails(crypto: Crypto, v: OracleView, c: FreshnessCommitment, root: ExecutionContextRoot,
                              now: TripleAnchor, th: Thresholds)
    ensures Settle(crypto, v, c, root, now, th) == Ok(Clear) <==>
      && Integrity(crypto, c, root)
      && c.anchor.InternallyConsistent(th, v.realAnchors)
      && SettlesInWindow(c, now, th)
      && ModelFresh(v, root, now, th)
      && InputFresh(v, root, now, th)
  {
    assert |Failed(1, v, c, root, now, th)| == 0 <==> c.anchor.InternallyConsistent(th, v.realAnchors);
    assert |Failed(2, v, c, root, now, th)| == 0
      <==> |Failed(1, v, c, root, now, th)| == 0 && SettlesInWindow(c, now, th);
    assert |Failed(3, v, c, root, now, th)| == 0
      <==> |Failed(2, v, c, root, now, th)| == 0 && ModelFresh(v, root, now, th);
    assert |Failed(4, v, c, root, now, th)| == 0
      <==> |Failed(3, v, c, root, now, th)| == 0 && InputFresh(v, root, now, th);
  }

  lemma FreshMeansKnown(v: OracleView, root: ExecutionContextRoot, now: TripleAnchor, th: Thresholds)
    ensures ModelFresh(v, root, now, th) ==> ModelKnown(v, root)
    ensures InputFresh(v, root, now, th) ==> InputKnown(v, root)
  {
    if InputFresh(v, root, now, th) {
      LagIsLargestSourceLag(v.witnesses[root.inputManifestRoot], now.blockHeight, v.enforceHorizon, v.realAnchors);
    }
  }

  // ---------- perishability ----------

  /** A commitment clears exactly while it is eligible and the settlement height
      lies between `Opens` and `Closes`. */
  lemma ClearsOnOneInterval(crypto: Crypto, v: OracleView, c: FreshnessCommitment, root: ExecutionContextRoot,
                            now: TripleAnchor, th: Thresholds)
    ensures Settle(crypto, v, c, root, now, th) == Ok(Clear) <==>
      Eligible(crypto, v, c, root, th) && Opens(v, c, root) <= now.blockHeight <= Closes(v, c, root, th)
  {
    ClearMeansNoAxisFails(crypto, v, c, root, now, th);
    FreshMeansKnown(v, root, now, th);
    if ModelKnown(v, root) && InputKnown(v, root) {
      BothEnds(v, c, root, now, th);
    }
  }

  lemma BothEnds(v: OracleView, c: FreshnessCommitment, root: ExecutionContextRoot, now: TripleAnchor, th: Thresholds)
    requires ModelKnown(v, root) && InputKnown(v, root)
    ensures SettlesInWindow(c, now, th) && ModelFresh(v, root, now, th) && InputFresh(v, root, now, th)
       <==> Opens(v, c, root) <= now.blockHeight <= Closes(v, c, root, th)
  {
    FreshBetween(v, root, now, th);
    OpensBounds(v, c, root, now.blockHeight);
    ClosesBounds(v, c, root, th, now.blockHeight);
  }

  lemma FreshBetween(v: OracleView, root: ExecutionContextRoot, now: TripleAnchor, th: Thresholds)
    requires ModelKnown(v, root) && InputKnown(v, root)
    ensures ModelFresh(v, root, now, th) && InputFresh(v, root, now, th) <==>
      Least(Activations(v.lineage.value.epochs)) <= now.blockHeight
      && NoneBefore(ModelEnds(v, root, th), now.blockHeight) && NoneBefore(InputEnds(v, root, th), now.blockHeight)
  {
    ModelWindow(v, root, now, th);
    InputWindow(v, root, now, th);
  }

  lemma OpensBounds(v: OracleView, c: FreshnessCommitment, root: ExecutionContextRoot, h: int)
    requires ModelKnown(v, root)
    ensures Opens(v, c, root) <= h <==> c.anchor.blockHeight <= h && Least(Activations(v.lineage.value.epochs)) <= h
  {}

  lemma ClosesBounds(v: OracleView, c: FreshnessCommitment, root: ExecutionContextRoot, th: Thresholds, h: int)
    requires ModelKnown(v, root) && InputKnown(v, root)
    ensures h <= Closes(v, c, root, th) <==>
      h <= c.anchor.blockHeight + th.maxFsBlocks
      && NoneBefore(ModelEnds(v, root, th), h) && NoneBefore(InputEnds(v, root, th), h)
  {
    EarliestBounds(c.anchor.blockHeight + th.maxFsBlocks, ModelEnds(v, root, th), InputEnds(v, root, th), h);
  }

  /** Along a clock that never runs backwards, once a clear verdict has been
      followed by any other, no later verdict is clear. */
  lemma Perishes(crypto: Crypto, v: OracleView, c: FreshnessCommitment, root: ExecutionContextRoot, th: Thresholds,
                 clock: seq<TripleAnchor>, i: nat, j: nat, k: nat)
    requires forall m, n :: 0 <= m < n < |clock| ==> clock[m].blockHeight <= clock[n].blockHeight
    requires i < j < k < |clock|
    requires Settle(crypto, v, c, root, clock[i], th) == Ok(Clear)
    requires Settle(crypto, v, c, root, clock[j], th) != Ok(Clear)
    ensures Settle(crypto, v, c, root, clock[k], th) != Ok(Clear)
  {
    ClearsOnOneInterval(crypto, v, c, root, clock[i], th);
    ClearsOnOneInterval(crypto, v, c, root, clock[j], th);
    ClearsOnOneInterval(crypto, v, c, root, clock[k], th);
  }

  /** A commitment made by a working key clears for its own context exactly on
      that interval, never before its commit height and never past its window. */
  lemma CommittedWorkPerishes(crypto: Crypto, v: OracleView, key: SigningKey, root: ExecutionContextRoot,
                              outputHash: Hash32, anchor: TripleAnchor, now: TripleAnchor, th: Thresholds)
    requires key.Signs(crypto)
    ensures var c := Commit(crypto, key, root, outputHash, anchor);
      && (Settle(crypto, v, c, root, now, th) == Ok(Clear) <==>
            && anchor.InternallyConsistent(th, v.realAnchors) && ModelKnown(v, root) && InputKnown(v, root)
            && Opens(v, c, root) <= now.blockHeight <= Closes(v, c, root, th))
      && (Settle(crypto, v, c, root, now, th) == Ok(Clear) ==>
            anchor.blockHeight <= now.blockHeight <= anchor.blockHeight + th.maxFsBlocks)
  {
    var c := Commit(crypto, key, root, outputHash, anchor);
    CommitVerifies(crypto, key, root, outputHash, anchor);
    ClearsOnOneInterval(crypto, v, c, root, now, th);
    ClearMeansNoAxisFails(crypto, v, c, root, now, th);
  }

  /** What failing an axis means: the commit clocks disagree; the height is
      outside the settlement window; the model is unknown, not yet active or
      superseded; or a source is missing, silent or too old. */
  ghost predicate FailsAxis(axis: FreshnessType, v: OracleView, c: FreshnessCommitment, root: ExecutionContextRoot,
                            now: TripleAnchor, th: Thresholds) {
    match axis
    case Computational => !c.anchor.InternallyConsistent(th, v.realAnchors)
    case Settlement =>
      now.blockHeight < c.anchor.blockHeight || now.blockHeight - c.anchor.blockHeight > th.maxFsBlocks
    case Model => !ModelServes(v.lineage, root.weightsHash, now.blockHeight, th.maxFmEpochs)
    case Input =>
      root.inputManifestRoot !in v.witnesses
      || !SourcesServe(v.witnesses[root.inputManifestRoot].attestations, now.blockHeight, th.maxFiBlocks,
                       v.enforceHorizon, v.realAnchors)
  }

  /** The lineage has the model at a first position, some epoch is active, and
      none more than `limit` positions further on is. */
  ghost predicate ModelServes(lineage: Option<ModelLineage>, weights: Hash32, height: U64, limit: nat) {
    && lineage.Some?
    && (exists i :: 0 <= i < |lineage.value.epochs| && lineage.value.epochs[i].activationBlock <= height)
    && exists p :: FirstWith(lineage.value, weights, p) && Unsuperseded(lineage.value, p, limit, height)
  }

  ghost predicate Unsuperseded(l: ModelLineage, p: int, limit: nat, height: U64)
    requires 0 <= p
  {
    forall i :: p + limit < i < |l.epochs| ==> l.epochs[i].activationBlock > height
  }

  ghost predicate FirstWith(l: ModelLineage, weights: Hash32, p: int) {
    && 0 <= p < |l.epochs| && l.epochs[p].weightsHash == weights
    && forall i :: 0 <= i < p ==> l.epochs[i].weightsHash != weights
  }

  /** There is a source, and each is datable, at most `limit` blocks old and, if
      enforced, within its signed seconds at two seconds a block. */
  ghost predicate SourcesServe(atts: seq<InputAttestation>, height: U64, limit: nat, enforce: bool, realAnchors: bool) {
    && |atts| > 0
    && (forall i :: 0 <= i < |atts| ==> atts[i].AsOfBlock(realAnchors).Ok?)
    && (forall i :: 0 <= i < |atts| ==> height - atts[i].AsOfBlock(realAnchors).value <= limit)
    && (enforce ==> forall i :: 0 <= i < |atts| ==>
          2 * (height - atts[i].AsOfBlock(realAnchors).value) <= atts[i].freshnessHorizonSecs)
  }

  lemma ModelAxis(v: OracleView, root: ExecutionContextRoot, now: TripleAnchor, th: Thresholds)
    ensures ModelFresh(v, root, now, th) <==> ModelServes(v.lineage, root.weightsHash, now.blockHeight, th.maxFmEpochs)
  {
    if v.lineage.Some? {
      var l, position := v.lineage.value, PositionOf(v.lineage.value, root.weightsHash);
      DistanceWithin(l, root.weightsHash, now.blockHeight, th.maxFmEpochs);
      if position.Some? {
        assert FirstWith(l, root.weightsHash, position.value);
        OneFirst(l, root.weightsHash, position.value);
        assert Unsuperseded(l, position.value, th.maxFmEpochs, now.blockHeight) <==>
          forall i :: position.value + th.maxFmEpochs < i < |l.epochs| ==>
            l.epochs[i].activationBlock > now.blockHeight;
      }
    }
  }

  lemma OneFirst(l: ModelLineage, weights: Hash32, p: nat)
    requires FirstWith(l, weights, p)
    ensures forall q :: FirstWith(l, weights, q) ==> q == p
  {}

  lemma InputAxis(v: OracleView, root: ExecutionContextRoot, now: TripleAnchor, th: Thresholds)
    ensures InputFresh(v, root, now, th) <==>
      root.inputManifestRoot in v.witnesses
      && SourcesServe(v.witnesses[root.inputManifestRoot].attestations, now.blockHeight, th.maxFiBlocks,
                      v.enforceHorizon, v.realAnchors)
  {
    if root.inputManifestRoot in v.witnesses {
      LagIsLargestSourceLag(v.witnesses[root.inputManifestRoot], now.blockHeight, v.enforceHorizon, v.realAnchors);
    }
  }

  lemma FailsMeansNotPasses(axis: FreshnessType, v: OracleView, c: FreshnessCommitment, root: ExecutionContextRoot,
                            now: TripleAnchor, th: Thresholds)
    ensures FailsAxis(axis, v, c, root, now, th) <==> !Passes(axis, v, c, root, now, th)
  {
    ModelAxis(v, root, now, th);
    InputAxis(v, root, now, th);
  }

  /** A rejection names exactly the axes that fail, each once, in the order
      Computational, Settlement, Model, Input. */
  lemma RejectionNamesFailedAxes(crypto: Crypto, v: OracleView, c: FreshnessCommitment, root: ExecutionContextRoot,
                                 now: TripleAnchor, th: Thresholds, axis: FreshnessType)
    requires Settle(crypto, v, c, root, now, th).Ok?
    ensures var list := Failed(4, v, c, root, now, th);
      && (axis in list <==> FailsAxis(axis, v, c, root, now, th))
      && (Settle(crypto, v, c, root, now, th) == Ok(Clear) <==> list == [])
      && (list != [] ==> Settle(crypto, v, c, root, now, th) == Ok(Rejected(list)))
      && Ascending(list)
  {
    FailedInOrder(4, v, c, root, now, th);
    FailsMeansNotPasses(axis, v, c, root, now, th);
    assert AXES[Rank(axis)] == axis;
  }

  /** When settlement aborts: on a bad signature first, then on any vendor but the
      software one, then on a disclosed context that does not hash to the root;
      otherwise it answers. */
  lemma SettleAborts(crypto: Crypto, v: OracleView, c: FreshnessCommitment, root: ExecutionContextRoot,
                     now: TripleAnchor, th: Thresholds)
    ensures var signed := crypto.verifies(c.publicKey,
                                          crypto.sha256(DigestPreimage(c.contextRoot, c.anchor, c.outputHash)),
                                          c.signature);
      var software, bound := c.vendor == MockSoftware, crypto.sha256(root.Preimage()) == c.contextRoot;
      && (Settle(crypto, v, c, root, now, th).Ok? <==> signed && software && bound)
      && (!signed ==> Settle(crypto, v, c, root, now, th) == Err(InvalidSignature))
      && (signed && !software ==> Settle(crypto, v, c, root, now, th) == Err(InvalidAttestation))
      && (signed && software && !bound ==> Settle(crypto, v, c, root, now, th) == Err(RootMismatch))
  {
    VerifyMeans(crypto, c);
  }

  function Rank(axis: FreshnessType): nat {
    match axis
    case Computational => 0
    case Settlement => 1
    case Model => 2
    case Input => 3
  }

  lemma {:induction false} FailedInOrder(n: nat, v: OracleView, c: FreshnessCommitment, root: ExecutionContextRoot,
                                         now: TripleAnchor, th: Thresholds)
    requires n <= 4
    ensures forall axis ::
      axis in Failed(n, v, c, root, now, th) <==> Rank(axis) < n && !Passes(axis, v, c, root, now, th)
    ensures Ascending(Failed(n, v, c, root, now, th))
  {
    if n == 0 {
    } else {
      FailedInOrder(n - 1, v, c, root, now, th);
      assert forall axis :: Rank(axis) == n - 1 <==> axis == AXES[n-1];
      AscendingAppend(Failed(n - 1, v, c, root, now, th), AXES[n-1]);
    }
  }

  ghost predicate Ascending(list: seq<FreshnessType>) {
    forall i, j :: 0 <= i < j < |list| ==> Rank(list[i]) < Rank(list[j])
  }

  lemma AscendingAppend(list: seq<FreshnessType>, axis: FreshnessType)
    requires Ascending(list) && forall x :: x in list ==> Rank(x) < Rank(axis)
    ensures Ascending(list + [axis])
  {
    assert forall i :: 0 <= i < |list| ==> list[i] in list;
  }

  // ---------- what a clear verdict rests on ----------

  /** Over every run of the two registries, a clear verdict rests on a lineage
      with a quorum behind it and on admitted attestations that make up exactly
      the committed input manifest. */
  lemma ClearIsBacked(crypto: Crypto, publishers: set<Hash32>, threshold: nat, presented: seq<Presentation>,
                      pin: Option<Hash32>, calls: seq<seq<Result<InputAttestation>>>, enforce: bool, realAnchors: bool,
                      c: FreshnessCommitment, root: ExecutionContextRoot, now: TripleAnchor, th: Thresholds)
    requires var v := OracleView(Held(crypto, publishers, threshold, presented), Fold(Log(crypto, pin, calls)),
                                 enforce, realAnchors);
      Settle(crypto, v, c, root, now, th) == Ok(Clear)
    ensures crypto.verifies(c.publicKey, crypto.sha256(DigestPreimage(c.contextRoot, c.anchor, c.outputHash)),
                            c.signature)
    ensures crypto.sha256(root.Preimage()) == c.contextRoot
    ensures exists k ::
      0 <= k < |presented| && BacksModel(crypto, publishers, threshold, presented[k], root.weightsHash)
    ensures root.inputManifestRoot in Fold(Log(crypto, pin, calls))
      && SoundWitness(crypto, pin, root.inputManifestRoot, Fold(Log(crypto, pin, calls))[root.inputManifestRoot])
  {
    var v := OracleView(Held(crypto, publishers, threshold, presented), Fold(Log(crypto, pin, calls)), enforce,
                        realAnchors);
    ClearsOnOneInterval(crypto, v, c, root, now, th);
    var k := HeldHasQuorum(crypto, publishers, threshold, presented);
    assert BacksModel(crypto, publishers, threshold, presented[k], root.weightsHash);
    RegistryHoldsSoundWitnesses(crypto, pin, calls, root.inputManifestRoot);
  }

  /** A quorum signed this exact lineage, and the model is in it. */
  predicate BacksModel(crypto: Crypto, publishers: set<Hash32>, threshold: nat, p: Presentation, weights: Hash32) {
    HasQuorum(crypto, publishers, threshold, p.lineage, p.signatures) && PositionOf(p.lineage, weights).Some?
  }
}
