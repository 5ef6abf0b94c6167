/** The settlement gate (src/mock.rs, src/settle.rs) over the two real oracles,
    composed by axis (src/oracle.rs). */
module Settlement {
  import opened Types
  import opened Anchor
  import opened Context
  import opened Commitment
  import opened ModelRegistry
  import opened InputFreshness

  datatype SettlementResult = Clear | Rejected(violations: seq<FreshnessType>)

  /** What the composed oracle knows at settlement. */
  datatype OracleView = OracleView(
    lineage: Option<ModelLineage>,
    witnesses: Witnesses,
    enforceHorizon: bool,
    realAnchors: bool)

  // ---------- the four axes ----------

  /** Commit-to-settle time is within the window, counted from the commit. */
  predicate SettlesInWindow(c: FreshnessCommitment, now: TripleAnchor, th: Thresholds) {
    c.anchor.blockHeight <= now.blockHeight <= c.anchor.blockHeight + th.maxFsBlocks
  }

  predicate ModelFresh(v: OracleView, root: ExecutionContextRoot, now: TripleAnchor, th: Thresholds) {
    var d := Distance(v.lineage, root.weightsHash, now.blockHeight);
    d.Ok? && d.value <= th.maxFmEpochs
  }

  predicate InputFresh(v: OracleView, root: ExecutionContextRoot, now: TripleAnchor, th: Thresholds) {
    var l := LagOf(v.witnesses, v.enforceHorizon, root.inputManifestRoot, now.blockHeight, v.realAnchors);
    l.Ok? && l.value <= th.maxFiBlocks
  }

  predicate Passes(axis: FreshnessType, v: OracleView, c: FreshnessCommitment, root: ExecutionContextRoot,
                   now: TripleAnchor, th: Thresholds)
  {
    match axis
    case Computational => c.anchor.InternallyConsistent(th, v.realAnchors)
    case Settlement => SettlesInWindow(c, now, th)
    case Model => ModelFresh(v, root, now, th)
    case Input => InputFresh(v, root, now, th)
  }

  const AXES := [Computational, Settlement, Model, Input]

  /** The failed axes among the first `n`, in reporting order. */
  function Failed(n: nat, v: OracleView, c: FreshnessCommitment, root: ExecutionContextRoot,
                  now: TripleAnchor, th: Thresholds): seq<FreshnessType>
    requires n <= 4
  {
    if n == 0 then []
    else
      var earlier := Failed(n - 1, v, c, root, now, th);
      if Passes(AXES[n-1], v, c, root, now, th) then earlier else earlier + [AXES[n-1]]
  }

  function Settle(crypto: Crypto, v: OracleView, c: FreshnessCommitment, root: ExecutionContextRoot,
                  now: TripleAnchor, th: Thresholds): Result<SettlementResult>
  {
    match Verify(crypto, c)
    case Err(e) => Err(e)
    case Ok(_) =>
      if !Binds(crypto, c, root) then Err(RootMismatch)
      else
        var violations := Failed(4, v, c, root, now, th);
        Ok(if |violations| == 0 then Clear else Rejected(violations))
  }

  lemma NextAxis(n: nat, axis: FreshnessType, v: OracleView, c: FreshnessCommitment, root: ExecutionContextRoot,
                 now: TripleAnchor, th: Thresholds)
    requires n < 4 && axis == AXES[n]
    ensures Failed(n + 1, v, c, root, now, th)
         == Failed(n, v, c, root, now, th) + (if Passes(axis, v, c, root, now, th) then [] else [axis])
  {}

  /** A gate holding its oracles. */
  class SettlementGate {
    const crypto: Crypto
    const realAnchors: bool
    const model: QuorumModelOracle
    const input: BaseOracleInputOracle

    constructor (crypto: Crypto, realAnchors: bool, model: QuorumModelOracle, input: BaseOracleInputOracle)
      ensures this.crypto == crypto && this.realAnchors == realAnchors && this.model == model && this.input == input
    {
      this.crypto := crypto;
      this.realAnchors := realAnchors;
      this.model := model;
      this.input := input;
    }

    function View(): OracleView
      reads model, input
    {
      OracleView(model.lineage, input.witnesses, input.enforceHorizon, realAnchors)
    }

    method VerifyAndSettle(c: FreshnessCommitment, root: ExecutionContextRoot, now: TripleAnchor, th: Thresholds)
      returns (r: Result<SettlementResult>)
      ensures r == Settle(crypto, View(), c, root, now, th)
    {
      var verified := Verify(crypto, c);
      if verified.Err? {
        return Err(verified.error);
      }
      if root.MerkleRoot(crypto) != c.contextRoot {
        return Err(RootMismatch);
      }
      var violations := CheckAxes(c, root, now, th);
      r := Ok(if |violations| == 0 then Clear else Rejected(violations));
    }

    /** The freshness checks, each pushing its violation. */
    method CheckAxes(c: FreshnessCommitment, root: ExecutionContextRoot, now: TripleAnchor, th: Thresholds)
      returns (violations: seq<FreshnessType>)
      ensures violations == Failed(4, View(), c, root, now, th)
    {
      ghost var v := View();
      violations := [];
      if !c.anchor.InternallyConsistent(th, realAnchors) {
        violations := violations + [Computational];
      }
      NextAxis(0, Computational, v, c, root, now, th);
      var fsViolation := now.blockHeight < c.anchor.blockHeight
        || now.blockHeight - c.anchor.blockHeight > th.maxFsBlocks;
      if fsViolation {
        violations := violations + [Settlement];
      }
      NextAxis(1, Settlement, v, c, root, now, th);
      var modelStale := ModelStale(root, now, th);
      if modelStale {
        violations := violations + [Model];
      }
      NextAxis(2, Model, v, c, root, now, th);
      var inputStale := InputStale(root, now, th);
      if inputStale {
        violations := violations + [Input];
      }
      NextAxis(3, Input, v, c, root, now, th);
    }

    /** An oracle error counts as stale. */
    method ModelStale(root: ExecutionContextRoot, now: TripleAnchor, th: Thresholds) returns (stale: bool)
      ensures stale <==> !ModelFresh(View(), root, now, th)
    {
      var distance := model.ModelEpochDistance(root.weightsHash, now.blockHeight);
      stale := match distance case Ok(d) => d > th.maxFmEpochs case Err(_) => true;
    }

    method InputStale(root: ExecutionContextRoot, now: TripleAnchor, th: Thresholds) returns (stale: bool)
      ensures stale <==> !InputFresh(View(), root, now, th)
    {
      var lag := input.InputLagBlocks(root.inputManifestRoot, now.blockHeight, realAnchors);
      stale := match lag case Ok(l) => l > th.maxFiBlocks case Err(_) => true;
    }

    method IsSettlementEligible(c: FreshnessCommitment, root: ExecutionContextRoot, now: TripleAnchor, th: Thresholds)
      returns (r: Result<bool>)
      ensures match Settle(crypto, View(), c, root, now, th)
        case Err(e) => r == Err(e)
        case Ok(verdict) => r == Ok(verdict == Clear)
    {
      var verdict := VerifyAndSettle(c, root, now, th);
      r := match verdict case Err(e) => Err(e) case Ok(s) => Ok(s.Clear?);
    }
  }
}
