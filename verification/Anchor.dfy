/** The triple anchor (src/anchor.rs) and the gate thresholds (src/freshness.rs). */
module Anchor {
  import opened Types

  const DRAND_GENESIS_UNIX := 1_595_431_050
  const DRAND_PERIOD_SECS := 30
  const BASE_MAINNET_GENESIS_UNIX := 1_686_789_347
  const BASE_BLOCK_PERIOD_SECS := 2
  const NANOS := 1_000_000_000

  datatype Thresholds = Thresholds(
    blockSkew: U64,
    teeSkewSecs: U64,
    drandSkew: U64,
    maxFcBlocks: U64,
    maxFmEpochs: U64,
    maxFiBlocks: U64,
    maxFsBlocks: U64)
  {
    /** The outer additions wrap in a build without overflow checks. */
    function TeeTolerance(): U64 {
      WrapAdd(teeSkewSecs, SatMul(drandSkew, DRAND_PERIOD_SECS))
    }

    function BlockTolerance(): U64 {
      WrapAdd(SatMul(blockSkew, BASE_BLOCK_PERIOD_SECS), SatMul(drandSkew, DRAND_PERIOD_SECS))
    }
  }

  datatype TripleAnchor = TripleAnchor(blockHeight: U64, teeTimestamp: U128, drandRound: U64)
  {
    /** The outer addition is not saturating: it wraps in a build without
        overflow checks. */
    function DrandWallTimeSecs(): U64 {
      WrapAdd(DRAND_GENESIS_UNIX, SatMul(drandRound, DRAND_PERIOD_SECS))
    }

    /** `as u64` keeps the low 64 bits of the u128 quotient. */
    function TeeWallTimeSecs(): U64 {
      teeTimestamp / NANOS % TWO_64
    }

    function BlockWallTimeSecs(): U64 {
      WrapAdd(BASE_MAINNET_GENESIS_UNIX, SatMul(blockHeight, BASE_BLOCK_PERIOD_SECS))
    }

    predicate TeeDrandConsistent(th: Thresholds) {
      AbsDiff(TeeWallTimeSecs(), DrandWallTimeSecs()) <= th.TeeTolerance()
    }

    /** The block leg is compiled in by the `real-anchors` feature. */
    predicate InternallyConsistent(th: Thresholds, realAnchors: bool) {
      && TeeDrandConsistent(th)
      && (realAnchors ==> AbsDiff(BlockWallTimeSecs(), DrandWallTimeSecs()) <= th.BlockTolerance())
    }

    /** No clock arithmetic on this anchor leaves u64. */
    predicate InRange() {
      && teeTimestamp / NANOS < TWO_64
      && DRAND_GENESIS_UNIX + DRAND_PERIOD_SECS * drandRound < TWO_64
      && BASE_MAINNET_GENESIS_UNIX + BASE_BLOCK_PERIOD_SECS * blockHeight < TWO_64
    }
  }

  /** Neither tolerance leaves u64. */
  predicate TolerancesInRange(th: Thresholds) {
    && th.teeSkewSecs + DRAND_PERIOD_SECS * th.drandSkew < TWO_64
    && BASE_BLOCK_PERIOD_SECS * th.blockSkew + DRAND_PERIOD_SECS * th.drandSkew < TWO_64
  }

  datatype AnchorSkew = AnchorSkew(blockDelta: U64, teeDeltaNs: U128, drandDelta: U64)

  function SkewVs(a: TripleAnchor, b: TripleAnchor): AnchorSkew {
    AnchorSkew(AbsDiff(a.blockHeight, b.blockHeight),
               AbsDiff(a.teeTimestamp, b.teeTimestamp),
               AbsDiff(a.drandRound, b.drandRound))
  }

  predicate DivergesBeyond(a: TripleAnchor, b: TripleAnchor, th: Thresholds) {
    var s := SkewVs(a, b);
    || s.blockDelta > th.blockSkew
    || s.teeDeltaNs / NANOS > th.teeSkewSecs
    || s.drandDelta > th.drandSkew
  }

  // ---------- when the wall times are right ----------

  lemma SaturatedExceeds(x: U64, period: nat, genesis: nat)
    requires 0 < period < TWO_64 && 0 < genesis < TWO_64
    ensures WrapAdd(genesis, SatMul(x, period)) == genesis + period * x <==> genesis + period * x < TWO_64
  {
    MulNonNegative(x, period);
    assert x * period == period * x;
  }

  /** The Drand wall time is the round's emission time exactly while that fits u64. */
  lemma DrandTimeExactIff(a: TripleAnchor)
    ensures a.DrandWallTimeSecs() == 1_595_431_050 + 30 * a.drandRound
       <==> 1_595_431_050 + 30 * a.drandRound < TWO_64
  {
    SaturatedExceeds(a.drandRound, 30, DRAND_GENESIS_UNIX);
  }

  /** The block wall time is the block's emission time exactly while that fits u64. */
  lemma BlockTimeExactIff(a: TripleAnchor)
    ensures a.BlockWallTimeSecs() == 1_686_789_347 + 2 * a.blockHeight
       <==> 1_686_789_347 + 2 * a.blockHeight < TWO_64
  {
    SaturatedExceeds(a.blockHeight, 2, BASE_MAINNET_GENESIS_UNIX);
  }

  /** The TEE wall time is the whole seconds of the timestamp exactly while they fit u64. */
  lemma TeeTimeExactIff(a: TripleAnchor)
    ensures a.TeeWallTimeSecs() == a.teeTimestamp / NANOS <==> a.teeTimestamp / NANOS < TWO_64
  {
    QuotientBelow(a.teeTimestamp / NANOS);
  }

  lemma QuotientBelow(x: nat)
    ensures x % TWO_64 == x <==> x < TWO_64
  {}

  /** Past that, the product saturates before the sum wraps. */
  lemma WallTimesPastRange(a: TripleAnchor)
    ensures a.DrandWallTimeSecs()
         == (1_595_431_050 + (if 30 * a.drandRound < TWO_64 then 30 * a.drandRound else TWO_64 - 1)) % TWO_64
    ensures a.BlockWallTimeSecs()
         == (1_686_789_347 + (if 2 * a.blockHeight < TWO_64 then 2 * a.blockHeight else TWO_64 - 1)) % TWO_64
    ensures a.TeeWallTimeSecs() == a.teeTimestamp / 1_000_000_000 % TWO_64
  {}

  /** All three wall times are right exactly on anchors in range. */
  lemma WallTimesExactIff(a: TripleAnchor)
    ensures a.InRange() <==>
      && a.DrandWallTimeSecs() == DRAND_GENESIS_UNIX + 30 * a.drandRound
      && a.BlockWallTimeSecs() == BASE_MAINNET_GENESIS_UNIX + 2 * a.blockHeight
      && a.TeeWallTimeSecs() == a.teeTimestamp / NANOS
  {
    DrandTimeExactIff(a);
    BlockTimeExactIff(a);
    TeeTimeExactIff(a);
  }

  /** The TEE tolerance is tee_skew + 30 drand_skew exactly while that fits u64. */
  lemma TeeToleranceExactIff(th: Thresholds)
    ensures th.TeeTolerance() == th.teeSkewSecs + 30 * th.drandSkew
       <==> th.teeSkewSecs + 30 * th.drandSkew < TWO_64
  {}

  /** The block tolerance is 2 block_skew + 30 drand_skew exactly while that fits u64. */
  lemma BlockToleranceExactIff(th: Thresholds)
    ensures th.BlockTolerance() == 2 * th.blockSkew + 30 * th.drandSkew
       <==> 2 * th.blockSkew + 30 * th.drandSkew < TWO_64
  {}

  /** Past that, products saturate and sums wrap. */
  lemma TolerancesPastRange(th: Thresholds)
    ensures th.TeeTolerance()
         == (th.teeSkewSecs + (if 30 * th.drandSkew < TWO_64 then 30 * th.drandSkew else TWO_64 - 1)) % TWO_64
    ensures th.BlockTolerance()
         == ((if 2 * th.blockSkew < TWO_64 then 2 * th.blockSkew else TWO_64 - 1)
             + (if 30 * th.drandSkew < TWO_64 then 30 * th.drandSkew else TWO_64 - 1)) % TWO_64
  {}

  /** Both tolerances are right exactly on thresholds in range. */
  lemma TolerancesExactIff(th: Thresholds)
    ensures TolerancesInRange(th) <==>
      && th.TeeTolerance() == th.teeSkewSecs + 30 * th.drandSkew
      && th.BlockTolerance() == 2 * th.blockSkew + 30 * th.drandSkew
  {
    TeeToleranceExactIff(th);
    BlockToleranceExactIff(th);
  }

  /** Leaving the range is possible: a far-future round reads as a time before genesis. */
  lemma FarFutureRoundWraps()
    ensures TripleAnchor(0, 0, TWO_64 / 30).DrandWallTimeSecs() < DRAND_GENESIS_UNIX
  {}

  // ---------- quantisation ----------

  /** The anchor an honest enclave records at a wall-clock instant: every clock
      shows its last completed tick. */
  function Observed(nanos: nat): TripleAnchor
    requires BASE_MAINNET_GENESIS_UNIX <= nanos / NANOS < TWO_64
  {
    var secs := nanos / NANOS;
    TripleAnchor((secs - BASE_MAINNET_GENESIS_UNIX) / BASE_BLOCK_PERIOD_SECS,
                 nanos,
                 (secs - DRAND_GENESIS_UNIX) / DRAND_PERIOD_SECS)
  }

  /** Clocks floored from one instant pass both legs whatever the other
      tolerances are, as soon as one Drand round of skew is allowed. */
  lemma ObservedAnchorPasses(nanos: nat, th: Thresholds, realAnchors: bool)
    requires BASE_MAINNET_GENESIS_UNIX <= nanos / NANOS < TWO_64
    requires TolerancesInRange(th) && th.drandSkew >= 1
    ensures Observed(nanos).InRange()
    ensures Observed(nanos).InternallyConsistent(th, realAnchors)
  {
    var a, secs := Observed(nanos), nanos / NANOS;
    assert a.TeeWallTimeSecs() == secs;
    assert secs - 30 < a.DrandWallTimeSecs() <= secs;
    assert secs - 2 < a.BlockWallTimeSecs() <= secs;
  }

  /** Without skew, an instant passes the TEE leg exactly when it is within
      `teeSkewSecs` of its own Drand round. */
  lemma ZeroSkewNeedsARoundBoundary(nanos: nat, th: Thresholds)
    requires BASE_MAINNET_GENESIS_UNIX <= nanos / NANOS < TWO_64
    requires th.drandSkew == 0
    ensures Observed(nanos).TeeDrandConsistent(th)
       <==> (nanos / NANOS - DRAND_GENESIS_UNIX) % DRAND_PERIOD_SECS <= th.teeSkewSecs
  {
    var a, secs := Observed(nanos), nanos / NANOS;
    assert a.TeeWallTimeSecs() == secs;
    assert a.DrandWallTimeSecs() == secs - (secs - DRAND_GENESIS_UNIX) % DRAND_PERIOD_SECS;
  }

  /** `x` and `y` are at most `tol` apart. */
  predicate Apart(x: int, y: int, tol: int) {
    x <= y + tol && y <= x + tol
  }

  lemma ApartMeans(x: int, y: int, tol: nat)
    ensures AbsDiff(x, y) <= tol <==> Apart(x, y, tol)
  {}

  /** In range, the two legs are plain comparisons of Unix seconds. */
  lemma ExactLegs(a: TripleAnchor, th: Thresholds)
    requires a.InRange() && TolerancesInRange(th)
    ensures a.TeeDrandConsistent(th)
       <==> Apart(a.teeTimestamp / 1_000_000_000, 1_595_431_050 + 30 * a.drandRound, th.teeSkewSecs + 30 * th.drandSkew)
    ensures a.InternallyConsistent(th, true)
       <==> a.TeeDrandConsistent(th) &&
            Apart(1_686_789_347 + 2 * a.blockHeight, 1_595_431_050 + 30 * a.drandRound,
                  2 * th.blockSkew + 30 * th.drandSkew)
    ensures a.InternallyConsistent(th, false) <==> a.TeeDrandConsistent(th)
  {
    WallTimesExactIff(a);
    TolerancesExactIff(th);
  }

  /** Both legs together bound the TEE-to-block gap that no leg checks. */
  lemma UncheckedGapBounded(a: TripleAnchor, th: Thresholds)
    requires a.InRange() && TolerancesInRange(th) && a.InternallyConsistent(th, true)
    ensures Apart(a.teeTimestamp / 1_000_000_000, 1_686_789_347 + 2 * a.blockHeight,
                  th.teeSkewSecs + 2 * th.blockSkew + 60 * th.drandSkew)
  {
    ExactLegs(a, th);
  }

  /** Two passing anchors see TEE time and Drand rounds advance together. */
  lemma ClocksAdvanceTogether(a: TripleAnchor, b: TripleAnchor, th: Thresholds)
    requires a.InRange() && b.InRange() && TolerancesInRange(th)
    requires a.TeeDrandConsistent(th) && b.TeeDrandConsistent(th)
    ensures Apart(b.teeTimestamp / 1_000_000_000 - a.teeTimestamp / 1_000_000_000,
                  30 * (b.drandRound - a.drandRound), 2 * (th.teeSkewSecs + 30 * th.drandSkew))
  {
    ExactLegs(a, th);
    ExactLegs(b, th);
  }

  /** The skew is the distance on each clock of its own. */
  lemma SkewMeans(a: TripleAnchor, b: TripleAnchor)
    ensures SkewVs(a, b).blockDelta
         == if a.blockHeight < b.blockHeight then b.blockHeight - a.blockHeight else a.blockHeight - b.blockHeight
    ensures SkewVs(a, b).teeDeltaNs
         == if a.teeTimestamp < b.teeTimestamp then b.teeTimestamp - a.teeTimestamp else a.teeTimestamp - b.teeTimestamp
    ensures SkewVs(a, b).drandDelta
         == if a.drandRound < b.drandRound then b.drandRound - a.drandRound else a.drandRound - b.drandRound
  {}

  /** Two anchors diverge exactly when one of the clocks is further apart than
      its own tolerance, the TEE clock counted in whole seconds. */
  lemma DivergesIff(a: TripleAnchor, b: TripleAnchor, th: Thresholds)
    ensures DivergesBeyond(a, b, th) <==>
      || !Apart(a.blockHeight, b.blockHeight, th.blockSkew)
      || !Apart(a.teeTimestamp, b.teeTimestamp, 1_000_000_000 * th.teeSkewSecs + 999_999_999)
      || !Apart(a.drandRound, b.drandRound, th.drandSkew)
  {}

  /** Anchors observed at instants close enough never diverge, on any clock;
      `skew_vs` does not depend on which of the two comes first. */
  lemma NearbyObservationsAgree(x: nat, y: nat, th: Thresholds)
    requires BASE_MAINNET_GENESIS_UNIX <= x / NANOS < TWO_64 && BASE_MAINNET_GENESIS_UNIX <= y / NANOS < TWO_64
    requires AbsDiff(x / NANOS, y / NANOS) <= 2 * th.blockSkew
    requires AbsDiff(x / NANOS, y / NANOS) <= th.teeSkewSecs
    requires AbsDiff(x / NANOS, y / NANOS) <= 30 * th.drandSkew
    ensures !DivergesBeyond(Observed(x), Observed(y), th)
    ensures SkewVs(Observed(x), Observed(y)) == SkewVs(Observed(y), Observed(x))
  {
    WholeSecondsApart(x, y);
    TicksApart(x / NANOS - BASE_MAINNET_GENESIS_UNIX, y / NANOS - BASE_MAINNET_GENESIS_UNIX, 2, th.blockSkew);
    TicksApart(x / NANOS - DRAND_GENESIS_UNIX, y / NANOS - DRAND_GENESIS_UNIX, 30, th.drandSkew);
  }

  lemma TicksApart(x: nat, y: nat, period: nat, ticks: nat)
    requires period == 2 || period == 30
    requires AbsDiff(x, y) <= period * ticks
    ensures AbsDiff(x / period, y / period) <= ticks
  {}

  lemma WholeSecondsApart(x: nat, y: nat)
    ensures AbsDiff(x, y) / NANOS <= AbsDiff(x / NANOS, y / NANOS)
  {}
}
