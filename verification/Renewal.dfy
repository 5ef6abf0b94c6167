/** Prospective-only renewal (src/renewal.rs) along runs of root bumps and
    clock ticks, and how it agrees with the settlement gate. */
module Renewal {
  import opened Types
  import opened Anchor
  import opened Context
  import opened Commitment
  import opened Settlement
  import opened Perishability

  datatype RenewalOutcome = StillValid | ProtectedByProspectiveOnly | ExpiredRequireRecommit

  /** `WindowedRenewal::evaluate`; it never fails. */
  function Evaluate(c: FreshnessCommitment, canonicalRoot: Hash32, now: TripleAnchor, th: Thresholds): RenewalOutcome {
    if c.contextRoot == canonicalRoot then StillValid
    else
      var withinWindow := now.blockHeight >= c.anchor.blockHeight
        && now.blockHeight - c.anchor.blockHeight <= th.maxFsBlocks;
      if withinWindow then ProtectedByProspectiveOnly else ExpiredRequireRecommit
  }

  /** Still valid exactly under the committed root; otherwise protected exactly
      from the commit to the end of its settlement window. */
  lemma EvaluateMeans(c: FreshnessCommitment, canonicalRoot: Hash32, now: TripleAnchor, th: Thresholds)
    ensures Evaluate(c, canonicalRoot, now, th) == StillValid <==> c.contextRoot == canonicalRoot
    ensures Evaluate(c, canonicalRoot, now, th) == ProtectedByProspectiveOnly <==>
      && c.contextRoot != canonicalRoot
      && c.anchor.blockHeight <= now.blockHeight <= c.anchor.blockHeight + th.maxFsBlocks
  {}

  /** What the protocol recognises at one moment. */
  datatype Chain = Chain(canonicalRoot: Hash32, used: set<Hash32>, now: TripleAnchor)

  function Outcome(c: FreshnessCommitment, s: Chain, th: Thresholds): RenewalOutcome {
    Evaluate(c, s.canonicalRoot, s.now, th)
  }

  function Rank(o: RenewalOutcome): nat {
    match o
    case StillValid => 0
    case ProtectedByProspectiveOnly => 1
    case ExpiredRequireRecommit => 2
  }

  // ---------- which changes make an outcome go back ----------

  /** The canonical root comes back to the committed one. */
  predicate Returns(c: FreshnessCommitment, s: Chain, t: Chain) {
    s.canonicalRoot != c.contextRoot && t.canonicalRoot == c.contextRoot
  }

  /** Between any two moments after the commit, however the root changed, the
      outcome stays or ages exactly when the root has not returned. */
  lemma OutcomeAgesIff(c: FreshnessCommitment, s: Chain, t: Chain, th: Thresholds)
    requires c.anchor.blockHeight <= s.now.blockHeight <= t.now.blockHeight
    ensures Rank(Outcome(c, s, th)) <= Rank(Outcome(c, t, th)) <==> !Returns(c, s, t)
  {
    if t.canonicalRoot == c.contextRoot {
      assert Outcome(c, t, th) == StillValid;
    } else {
      assert Outcome(c, t, th) != StillValid;
      assert Outcome(c, s, th).ExpiredRequireRecommit? ==> t.now.blockHeight > c.anchor.blockHeight + th.maxFsBlocks;
    }
  }

  /** The clock starts at or after the commit and never runs back. */
  ghost predicate ForwardFrom(c: FreshnessCommitment, run: seq<Chain>) {
    && (forall i :: 0 <= i < |run| ==> c.anchor.blockHeight <= run[i].now.blockHeight)
    && (forall i, j :: 0 <= i < j < |run| ==> run[i].now.blockHeight <= run[j].now.blockHeight)
  }

  ghost predicate NeverReturns(c: FreshnessCommitment, run: seq<Chain>) {
    forall i :: 0 < i < |run| ==> !Returns(c, run[i-1], run[i])
  }

  ghost predicate OnlyAges(c: FreshnessCommitment, run: seq<Chain>, th: Thresholds) {
    forall i, j :: 0 <= i < j < |run| ==> Rank(Outcome(c, run[i], th)) <= Rank(Outcome(c, run[j], th))
  }

  /** Once left, the committed root stays left. */
  lemma {:induction false} StaysLeft(c: FreshnessCommitment, run: seq<Chain>, i: nat, j: nat)
    requires NeverReturns(c, run) && i <= j < |run| && run[i].canonicalRoot != c.contextRoot
    ensures run[j].canonicalRoot != c.contextRoot
    decreases j - i
  {
    if i == j {
    } else {
      StaysLeft(c, run, i, j - 1);
      assert !Returns(c, run[j-1], run[j]);
    }
  }

  /** Along a run of arbitrary root changes, outcomes never go back exactly when
      no step returns to the committed root. */
  lemma OutcomesOnlyAgeIff(c: FreshnessCommitment, run: seq<Chain>, th: Thresholds)
    requires ForwardFrom(c, run)
    ensures OnlyAges(c, run, th) <==> NeverReturns(c, run)
  {
    if NeverReturns(c, run) {
      forall i, j | 0 <= i < j < |run| ensures Rank(Outcome(c, run[i], th)) <= Rank(Outcome(c, run[j], th)) {
        if run[i].canonicalRoot != c.contextRoot {
          StaysLeft(c, run, i, j);
        }
        OutcomeAgesIff(c, run[i], run[j], th);
      }
    }
    if OnlyAges(c, run, th) {
      forall i | 0 < i < |run| ensures !Returns(c, run[i-1], run[i]) {
        OutcomeAgesIff(c, run[i-1], run[i], th);
      }
    }
  }

  // ---------- runs of fresh bumps ----------

  /** A publisher bumps to a root never canonical before. */
  predicate Bump(s: Chain, t: Chain) {
    t.canonicalRoot !in s.used && t.used == s.used + {t.canonicalRoot} && t.now == s.now
  }

  /** The settlement chain advances. */
  predicate Tick(s: Chain, t: Chain) {
    t.canonicalRoot == s.canonicalRoot && t.used == s.used && s.now.blockHeight <= t.now.blockHeight
  }

  ghost predicate IsRun(run: seq<Chain>) {
    forall i :: 0 < i < |run| ==> Bump(run[i-1], run[i]) || Tick(run[i-1], run[i])
  }

  /** The commitment was made, no later than now, against a root that has been canonical. */
  predicate InFlight(c: FreshnessCommitment, s: Chain) {
    && s.canonicalRoot in s.used && c.contextRoot in s.used
    && c.anchor.blockHeight <= s.now.blockHeight
  }

  lemma {:induction false} StaysInFlight(c: FreshnessCommitment, run: seq<Chain>, i: nat, j: nat)
    requires IsRun(run) && i <= j < |run| && InFlight(c, run[i])
    ensures InFlight(c, run[j]) && run[i].now.blockHeight <= run[j].now.blockHeight
    decreases j - i
  {
    if i == j {
    } else {
      StaysInFlight(c, run, i, j - 1);
      assert Bump(run[j-1], run[j]) || Tick(run[j-1], run[j]);
    }
  }

  /** A fresh bump never returns, so along such a run a commitment in flight
      only moves from StillValid to Protected to Expired. */
  lemma OutcomesOnlyAge(c: FreshnessCommitment, run: seq<Chain>, th: Thresholds)
    requires IsRun(run) && |run| > 0 && InFlight(c, run[0])
    ensures OnlyAges(c, run, th)
  {
    forall i | 0 <= i < |run| ensures InFlight(c, run[i]) {
      StaysInFlight(c, run, 0, i);
    }
    forall i, j | 0 <= i < j < |run| ensures run[i].now.blockHeight <= run[j].now.blockHeight {
      StaysInFlight(c, run, i, j);
    }
    forall i | 0 < i < |run| ensures !Returns(c, run[i-1], run[i]) {
      assert Bump(run[i-1], run[i]) || Tick(run[i-1], run[i]);
      assert InFlight(c, run[i-1]);
    }
    OutcomesOnlyAgeIff(c, run, th);
  }

  /** A run that does return: an expired commitment is valid again. */
  lemma ReuseRevives(c: FreshnessCommitment, other: Hash32, now: TripleAnchor, th: Thresholds)
    requires c.contextRoot != other
    requires c.anchor.blockHeight + th.maxFsBlocks < now.blockHeight
    ensures Evaluate(c, other, now, th) == ExpiredRequireRecommit
    ensures Evaluate(c, c.contextRoot, now, th) == StillValid
  {}

  /** Protection lasts exactly while the root differs and the gate's own
      settlement-window test passes. */
  lemma ProtectedIff(c: FreshnessCommitment, canonicalRoot: Hash32, now: TripleAnchor, th: Thresholds)
    ensures Evaluate(c, canonicalRoot, now, th) == ProtectedByProspectiveOnly
       <==> c.contextRoot != canonicalRoot && SettlesInWindow(c, now, th)
  {}

  /** A commitment expired at some point of a run never clears from there on:
      the gate shares the settlement window, whatever root is canonical. */
  lemma ExpiredNeverClears(crypto: Crypto, v: OracleView, c: FreshnessCommitment, root: ExecutionContextRoot,
                           run: seq<Chain>, i: nat, j: nat, th: Thresholds)
    requires IsRun(run) && i <= j < |run| && InFlight(c, run[i])
    requires Outcome(c, run[i], th) == ExpiredRequireRecommit
    ensures Settle(crypto, v, c, root, run[j].now, th) != Ok(Settlement.SettlementResult.Clear)
  {
    StaysInFlight(c, run, i, j);
    ClearMeansNoAxisFails(crypto, v, c, root, run[j].now, th);
  }

  /** However often the root is bumped between two clear verdicts of a run, every
      verdict between them is clear and the commitment is not expired. */
  lemma BumpsNeverInterrupt(crypto: Crypto, v: OracleView, c: FreshnessCommitment, root: ExecutionContextRoot,
                            run: seq<Chain>, i: nat, j: nat, k: nat, th: Thresholds)
    requires IsRun(run) && i <= j <= k < |run| && InFlight(c, run[i])
    requires Settle(crypto, v, c, root, run[i].now, th) == Ok(Settlement.SettlementResult.Clear)
    requires Settle(crypto, v, c, root, run[k].now, th) == Ok(Settlement.SettlementResult.Clear)
    ensures Settle(crypto, v, c, root, run[j].now, th) == Ok(Settlement.SettlementResult.Clear)
    ensures Outcome(c, run[j], th) != ExpiredRequireRecommit
  {
    StaysInFlight(c, run, i, j);
    StaysInFlight(c, run, j, k);
    ClearsOnOneInterval(crypto, v, c, root, run[i].now, th);
    ClearsOnOneInterval(crypto, v, c, root, run[j].now, th);
    ClearsOnOneInterval(crypto, v, c, root, run[k].now, th);
    ClearMeansNoAxisFails(crypto, v, c, root, run[j].now, th);
  }
}
