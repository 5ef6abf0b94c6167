/** The multi-party gate (src/darkpool.rs): integrity aborts with attribution,
    freshness failures are collected per party, and the trade clears on one
    interval of instants. */
module DarkPool {
  import opened Types
  import opened Anchor
  import opened Context
  import opened Commitment
  import opened PriceFreshness
  import opened Registries
  import opened Bounds
  import opened Traversal

  datatype PartyRole = Intent | Response | Other(n: U32)

  datatype PartyContext = PartyContext(
    role: PartyRole,
    commitment: FreshnessCommitment,
    root: ExecutionContextRoot,
    marketId: Hash32,
    quoteCreatedAtSecs: U64)

  datatype DarkPoolThresholds = DarkPoolThresholds(
    maxPriceAgeSecs: U64,
    maxSettleWindowSecs: U64,
    anchorConsistency: Thresholds)

  datatype PartyVerdict = PartyVerdict(role: PartyRole, violations: seq<FreshnessType>)

  datatype Outcome = Clear | Rejected(failing: seq<PartyVerdict>) | Aborted(role: PartyRole, source: PocError)

  // ---------- one party ----------

  /** Signature and attestation first, then the disclosed context. */
  function IntegrityError(crypto: Crypto, p: PartyContext): Option<PocError> {
    match Verify(crypto, p.commitment)
    case Err(e) => Some(e)
    case Ok(_) => if Binds(crypto, p.commitment, p.root) then None else Some(RootMismatch)
  }

  /** Which integrity check fails first: the signature over the commitment's own
      digest, the software vendor, or the disclosed context's hash. */
  lemma IntegrityMeans(crypto: Crypto, p: PartyContext)
    ensures var c := p.commitment;
      var signed := crypto.verifies(c.publicKey, crypto.sha256(DigestPreimage(c.contextRoot, c.anchor, c.outputHash)),
                                    c.signature);
      var software, bound := c.vendor == MockSoftware, crypto.sha256(p.root.Preimage()) == c.contextRoot;
      && (IntegrityError(crypto, p) == None <==> signed && software && bound)
      && (!signed ==> IntegrityError(crypto, p) == Some(InvalidSignature))
      && (signed && !software ==> IntegrityError(crypto, p) == Some(InvalidAttestation))
      && (signed && software && !bound ==> IntegrityError(crypto, p) == Some(RootMismatch))
  {
    VerifyMeans(crypto, p.commitment);
  }

  predicate PriceFresh(prices: Prices, p: PartyContext, now: U64, th: DarkPoolThresholds) {
    var age := PriceAge(prices, p.marketId, now);
    age.Ok? && age.value <= th.maxPriceAgeSecs
  }

  predicate QuoteFresh(p: PartyContext, now: U64, th: DarkPoolThresholds) {
    p.quoteCreatedAtSecs <= now <= p.quoteCreatedAtSecs + th.maxSettleWindowSecs
  }

  function Violations(prices: Prices, p: PartyContext, now: U64, th: DarkPoolThresholds): seq<FreshnessType> {
    var consistent := p.commitment.anchor.TeeDrandConsistent(th.anchorConsistency);
    var a: seq<FreshnessType> := if consistent then [] else [Computational];
    var b := if PriceFresh(prices, p, now, th) then a else a + [Input];
    if QuoteFresh(p, now, th) then b else b + [Settlement]
  }

  /** The TEE and Drand clocks agree, the price of the party's market is young
      enough, and now is within the quote's window. */
  predicate FreshParty(prices: Prices, p: PartyContext, now: U64, th: DarkPoolThresholds) {
    && p.commitment.anchor.TeeDrandConsistent(th.anchorConsistency)
    && PricedRecently(prices, p, now, th)
    && p.quoteCreatedAtSecs <= now <= p.quoteCreatedAtSecs + th.maxSettleWindowSecs
  }

  predicate PricedRecently(prices: Prices, p: PartyContext, now: U64, th: DarkPoolThresholds) {
    p.marketId in prices && now <= prices[p.marketId].priceAsOfSecs + th.maxPriceAgeSecs
  }

  /** The listed violations are exactly the axes the party fails, in order. */
  lemma ViolationsAreFailedAxes(prices: Prices, p: PartyContext, now: U64, th: DarkPoolThresholds)
    ensures var vs := Violations(prices, p, now, th);
      && (Computational in vs <==> !p.commitment.anchor.TeeDrandConsistent(th.anchorConsistency))
      && (Input in vs <==> !PricedRecently(prices, p, now, th))
      && (Settlement in vs <==> now < p.quoteCreatedAtSecs || now > p.quoteCreatedAtSecs + th.maxSettleWindowSecs)
      && Model !in vs
      && (|vs| == 0 <==> FreshParty(prices, p, now, th))
      && (forall i, j :: 0 <= i < j < |vs| ==> Rank(vs[i]) < Rank(vs[j]))
  {
    PriceAgeMeans(prices, p.marketId, now);
  }

  function Rank(axis: FreshnessType): nat {
    match axis
    case Computational => 0
    case Input => 1
    case Settlement => 2
    case Model => 3
  }

  // ---------- all parties ----------

  /** A party's verdict when it fails freshness. */
  function VerdictOf(prices: Prices, now: U64, th: DarkPoolThresholds): PartyContext -> Option<PartyVerdict> {
    p => var vs := Violations(prices, p, now, th); if |vs| == 0 then None else Some(PartyVerdict(p.role, vs))
  }

  /** The verdicts among the first `n` parties that fail freshness, in party order. */
  function FailingAmong(prices: Prices, parties: seq<PartyContext>, n: nat, now: U64,
                        th: DarkPoolThresholds): seq<PartyVerdict>
    requires n <= |parties|
  {
    Collect(VerdictOf(prices, now, th), parties, n)
  }

  function Failing(prices: Prices, parties: seq<PartyContext>, now: U64, th: DarkPoolThresholds): seq<PartyVerdict> {
    FailingAmong(prices, parties, |parties|, now, th)
  }

  function IsBroken(crypto: Crypto): PartyContext -> bool {
    p => IntegrityError(crypto, p).Some?
  }

  /** The first party failing integrity, if any. */
  function FirstBroken(crypto: Crypto, parties: seq<PartyContext>): Option<nat> {
    FindFirst(IsBroken(crypto), parties, 0)
  }

  /** What the gate answers: the first integrity failure aborts, whatever was
      stale before it; otherwise the stale parties reject, or nothing does. */
  function Judge(crypto: Crypto, prices: Prices, parties: seq<PartyContext>, now: U64,
                 th: DarkPoolThresholds): Outcome {
    var broken := FirstBroken(crypto, parties);
    if broken.Some? then
      Aborted(parties[broken.value].role, IntegrityError(crypto, parties[broken.value]).value)
    else
      Verdict(Failing(prices, parties, now, th))
  }

  function Verdict(failing: seq<PartyVerdict>): Outcome {
    if |failing| == 0 then Clear else Rejected(failing)
  }

  /** `verify_party_contexts`. */
  method VerifyPartyContexts(crypto: Crypto, parties: seq<PartyContext>, oracle: PriceFreshnessOracle, now: U64,
                             th: DarkPoolThresholds) returns (r: Outcome)
    ensures r == Judge(crypto, oracle.byMarket, parties, now, th)
  {
    var failing: seq<PartyVerdict> := [];
    for i := 0 to |parties|
      invariant FirstBroken(crypto, parties) == FindFirst(IsBroken(crypto), parties, i)
      invariant failing == FailingAmong(oracle.byMarket, parties, i, now, th)
    {
      NextParty(crypto, oracle.byMarket, parties, i, now, th);
      var broken, violations := CheckPartyFully(crypto, parties[i], oracle, now, th);
      if broken.Some? {
        return Aborted(parties[i].role, broken.value);
      }
      if |violations| != 0 {
        failing := failing + [PartyVerdict(parties[i].role, violations)];
      }
    }
    r := if |failing| == 0 then Clear else Rejected(failing);
  }

  /** One party: integrity first, and freshness only when that holds. */
  method CheckPartyFully(crypto: Crypto, party: PartyContext, oracle: PriceFreshnessOracle, now: U64,
                         th: DarkPoolThresholds)
    returns (broken: Option<PocError>, violations: seq<FreshnessType>)
    ensures broken == IntegrityError(crypto, party)
    ensures broken.None? ==> violations == Violations(oracle.byMarket, party, now, th)
  {
    violations := [];
    broken := CheckIntegrity(crypto, party);
    if broken.None? {
      violations := CheckParty(party, oracle, now, th);
    }
  }

  /** Signature and attestation, then context binding. */
  method CheckIntegrity(crypto: Crypto, party: PartyContext) returns (r: Option<PocError>)
    ensures r == IntegrityError(crypto, party)
  {
    var verified := Verify(crypto, party.commitment);
    if verified.Err? {
      return Some(verified.error);
    }
    if party.root.MerkleRoot(crypto) != party.commitment.contextRoot {
      return Some(RootMismatch);
    }
    r := None;
  }

  lemma BrokenAt(crypto: Crypto, parties: seq<PartyContext>, k: nat)
    requires k < |parties| && IntegrityError(crypto, parties[k]).Some?
    requires forall i :: 0 <= i < k ==> IntegrityError(crypto, parties[i]).None?
    ensures FirstBroken(crypto, parties) == Some(k)
  {
    FindFirstIs(IsBroken(crypto), parties, k);
  }

  lemma NoneBroken(crypto: Crypto, parties: seq<PartyContext>)
    ensures FirstBroken(crypto, parties).None?
       <==> forall i :: 0 <= i < |parties| ==> IntegrityError(crypto, parties[i]).None?
  {
    var r := FirstBroken(crypto, parties);
    assert r.None? ==> forall i :: 0 <= i < |parties| ==> !IsBroken(crypto)(parties[i]);
  }

  lemma NextParty(crypto: Crypto, prices: Prices, parties: seq<PartyContext>, i: nat, now: U64, th: DarkPoolThresholds)
    requires i < |parties|
    ensures FindFirst(IsBroken(crypto), parties, i)
         == if IntegrityError(crypto, parties[i]).Some? then Some(i) else FindFirst(IsBroken(crypto), parties, i + 1)
    ensures var earlier, vs := FailingAmong(prices, parties, i, now, th), Violations(prices, parties[i], now, th);
      FailingAmong(prices, parties, i + 1, now, th)
        == if |vs| == 0 then earlier else earlier + [PartyVerdict(parties[i].role, vs)]
  {}

  /** The per-party freshness checks, each pushing its violation. */
  method CheckParty(party: PartyContext, oracle: PriceFreshnessOracle, now: U64, th: DarkPoolThresholds)
    returns (violations: seq<FreshnessType>)
    ensures violations == Violations(oracle.byMarket, party, now, th)
  {
    violations := [];
    if !party.commitment.anchor.TeeDrandConsistent(th.anchorConsistency) {
      violations := violations + [Computational];
    }
    var age := oracle.PriceAgeSecs(party.marketId, now);
    var priceStale := age.Err? || age.value > th.maxPriceAgeSecs;
    if priceStale {
      violations := violations + [Input];
    }
    var settleStale := now < party.quoteCreatedAtSecs || now - party.quoteCreatedAtSecs > th.maxSettleWindowSecs;
    if settleStale {
      violations := violations + [Settlement];
    }
  }

  // ---------- attribution ----------

  /** Party `k` fails integrity and none before it does. */
  ghost predicate FirstToBreak(crypto: Crypto, parties: seq<PartyContext>, k: nat) {
    && k < |parties| && IntegrityError(crypto, parties[k]).Some?
    && forall i :: 0 <= i < k ==> IntegrityError(crypto, parties[i]).None?
  }

  /** It aborts exactly when some party fails integrity, and an abort names the
      first such party, even after stale ones. */
  lemma AbortNamesFirstBroken(crypto: Crypto, prices: Prices, parties: seq<PartyContext>, now: U64,
                              th: DarkPoolThresholds)
    ensures Judge(crypto, prices, parties, now, th).Aborted?
       <==> exists k :: 0 <= k < |parties| && IntegrityError(crypto, parties[k]).Some?
    ensures forall k: nat :: FirstToBreak(crypto, parties, k) ==>
      Judge(crypto, prices, parties, now, th)
        == Aborted(parties[k].role, IntegrityError(crypto, parties[k]).value)
  {
    forall k: nat | FirstToBreak(crypto, parties, k) ensures FirstBroken(crypto, parties) == Some(k) {
      BrokenAt(crypto, parties, k);
    }
    NoneBroken(crypto, parties);
  }

  /** The positions of the failing parties: increasing, exactly the unfresh
      ones, and verdict by verdict theirs. */
  lemma FailingPositions(prices: Prices, parties: seq<PartyContext>, now: U64, th: DarkPoolThresholds)
    returns (at: seq<nat>)
    ensures |at| == |Failing(prices, parties, now, th)|
    ensures forall i, j :: 0 <= i < j < |at| ==> at[i] < at[j]
    ensures forall k :: k in at <==> 0 <= k < |parties| && !FreshParty(prices, parties[k], now, th)
    ensures forall i :: 0 <= i < |at| ==> at[i] < |parties|
    ensures forall i :: 0 <= i < |at| ==>
      Failing(prices, parties, now, th)[i]
        == PartyVerdict(parties[at[i]].role, Violations(prices, parties[at[i]], now, th))
  {
    var f := VerdictOf(prices, now, th);
    at := Positions(f, parties, |parties|);
    PositionsAreYields(f, parties, |parties|);
    CollectedLength(f, parties, |parties|);
    forall p ensures f(p).Some? <==> !FreshParty(prices, p, now, th) {
      ViolationsAreFailedAxes(prices, p, now, th);
    }
    forall i | 0 <= i < |at|
      ensures at[i] < |parties|
      ensures Failing(prices, parties, now, th)[i]
           == PartyVerdict(parties[at[i]].role, Violations(prices, parties[at[i]], now, th))
    {
      CollectedAtPositions(f, parties, |parties|, i);
      assert f(parties[at[i]]) == Some(Failing(prices, parties, now, th)[i]);
    }
  }

  /** The verdict over two groups from the verdicts over each. */
  function Combine(x: Outcome, y: Outcome): Outcome {
    if x.Aborted? then x
    else if y.Aborted? then y
    else if x.Clear? then y
    else if y.Clear? then x
    else Rejected(x.failing + y.failing)
  }

  lemma JudgeSplits(crypto: Crypto, prices: Prices, ps: seq<PartyContext>, qs: seq<PartyContext>, now: U64,
                    th: DarkPoolThresholds)
    ensures Judge(crypto, prices, ps + qs, now, th)
         == Combine(Judge(crypto, prices, ps, now, th), Judge(crypto, prices, qs, now, th))
  {
    BrokenSplits(crypto, ps, qs);
    var a, b := FirstBroken(crypto, ps), FirstBroken(crypto, qs);
    if a.Some? {
      AbortsAt(crypto, prices, ps + qs, a.value, now, th);
      AbortsAt(crypto, prices, ps, a.value, now, th);
    } else if b.Some? {
      AbortsAt(crypto, prices, ps + qs, |ps| + b.value, now, th);
      AbortsAt(crypto, prices, qs, b.value, now, th);
      FreshnessOf(crypto, prices, ps, now, th);
    } else {
      FailingSplits(prices, ps, qs, now, th);
      VerdictsCombine(Failing(prices, ps, now, th), Failing(prices, qs, now, th));
      FreshnessOf(crypto, prices, ps + qs, now, th);
      FreshnessOf(crypto, prices, ps, now, th);
      FreshnessOf(crypto, prices, qs, now, th);
    }
  }

  lemma AbortsAt(crypto: Crypto, prices: Prices, parties: seq<PartyContext>, k: nat, now: U64, th: DarkPoolThresholds)
    requires k < |parties| && FirstBroken(crypto, parties) == Some(k)
    ensures IntegrityError(crypto, parties[k]).Some?
    ensures Judge(crypto, prices, parties, now, th)
         == Aborted(parties[k].role, IntegrityError(crypto, parties[k]).value)
  {}

  /** The verdict of sound parties. */
  lemma FreshnessOf(crypto: Crypto, prices: Prices, parties: seq<PartyContext>, now: U64, th: DarkPoolThresholds)
    requires FirstBroken(crypto, parties).None?
    ensures Judge(crypto, prices, parties, now, th) == Verdict(Failing(prices, parties, now, th))
  {}

  lemma VerdictsCombine(x: seq<PartyVerdict>, y: seq<PartyVerdict>)
    ensures Verdict(x + y) == Combine(Verdict(x), Verdict(y))
  {
    if |x| == 0 {
      assert x + y == y;
    } else if |y| == 0 {
      assert x + y == x;
    }
  }

  lemma FailingSplits(prices: Prices, ps: seq<PartyContext>, qs: seq<PartyContext>, now: U64, th: DarkPoolThresholds)
    ensures Failing(prices, ps + qs, now, th) == Failing(prices, ps, now, th) + Failing(prices, qs, now, th)
  {
    CollectSplits(VerdictOf(prices, now, th), ps, qs, |qs|);
  }

  lemma BrokenSplits(crypto: Crypto, ps: seq<PartyContext>, qs: seq<PartyContext>)
    ensures var a, b := FirstBroken(crypto, ps), FirstBroken(crypto, qs);
      && (a.Some? ==> a.value < |ps|) && (b.Some? ==> b.value < |qs|)
      && FirstBroken(crypto, ps + qs) == if a.Some? then a else if b.Some? then Some(|ps| + b.value) else None
  {
    FindFirstSplits(IsBroken(crypto), ps, qs);
  }

  // ---------- the clearing interval ----------

  /** A valid signature, the software vendor, the committed context, clocks that
      agree and a known market, for every party. */
  predicate Tradable(crypto: Crypto, prices: Prices, parties: seq<PartyContext>, th: DarkPoolThresholds) {
    forall i :: 0 <= i < |parties| ==> Sound(crypto, parties[i], th) && parties[i].marketId in prices
  }

  predicate Sound(crypto: Crypto, p: PartyContext, th: DarkPoolThresholds) {
    var c := p.commitment;
    && crypto.verifies(c.publicKey, crypto.sha256(DigestPreimage(c.contextRoot, c.anchor, c.outputHash)), c.signature)
    && c.vendor == MockSoftware
    && crypto.sha256(p.root.Preimage()) == c.contextRoot
    && c.anchor.TeeDrandConsistent(th.anchorConsistency)
  }

  function QuoteTimes(parties: seq<PartyContext>): (r: seq<int>)
    ensures |r| == |parties| && forall i :: 0 <= i < |r| ==> r[i] == parties[i].quoteCreatedAtSecs
  {
    seq(|parties|, i requires 0 <= i < |parties| => parties[i].quoteCreatedAtSecs)
  }

  function PriceTimes(prices: Prices, parties: seq<PartyContext>): (r: seq<int>)
    requires forall i :: 0 <= i < |parties| ==> parties[i].marketId in prices
    ensures |r| == |parties| && forall i :: 0 <= i < |r| ==> r[i] == prices[parties[i].marketId].priceAsOfSecs
  {
    seq(|parties|, i requires 0 <= i < |parties| => prices[parties[i].marketId].priceAsOfSecs)
  }

  lemma ClearMeansAllFresh(crypto: Crypto, prices: Prices, parties: seq<PartyContext>, now: U64, th: DarkPoolThresholds)
    ensures Judge(crypto, prices, parties, now, th) == Clear <==>
      forall i :: 0 <= i < |parties| ==>
        IntegrityError(crypto, parties[i]).None? && FreshParty(prices, parties[i], now, th)
  {
    var at := FailingPositions(prices, parties, now, th);
    if |at| > 0 { assert at[0] in at; }
    NoneBroken(crypto, parties);
  }

  /** No parties clear; any others exactly when all are tradable and the instant
      lies from the newest quote to the earlier of the oldest quote's and the
      oldest price's deadlines. */
  lemma TradesClearOnOneInterval(crypto: Crypto, prices: Prices, parties: seq<PartyContext>, now: U64,
                                 th: DarkPoolThresholds)
    ensures Judge(crypto, prices, parties, now, th) == Clear <==>
      |parties| == 0 || (Tradable(crypto, prices, parties, th) && InInterval(prices, parties, now, th))
  {
    ClearMeansAllFresh(crypto, prices, parties, now, th);
    forall i | 0 <= i < |parties|
      ensures IntegrityError(crypto, parties[i]).None? && FreshParty(prices, parties[i], now, th)
         <==> Sound(crypto, parties[i], th) && FreshParty(prices, parties[i], now, th)
    {
      IntegrityMeans(crypto, parties[i]);
    }
    if |parties| > 0 && Tradable(crypto, prices, parties, th) {
      IntervalBounds(prices, parties, now, th);
      TimesBound(prices, parties, now, th);
    }
  }

  predicate InInterval(prices: Prices, parties: seq<PartyContext>, now: U64, th: DarkPoolThresholds)
    requires |parties| > 0 && forall i :: 0 <= i < |parties| ==> parties[i].marketId in prices
  {
    && Greatest(QuoteTimes(parties)) <= now
    && now <= Least(QuoteTimes(parties)) + th.maxSettleWindowSecs
    && now <= Least(PriceTimes(prices, parties)) + th.maxPriceAgeSecs
  }

  lemma IntervalBounds(prices: Prices, parties: seq<PartyContext>, now: U64, th: DarkPoolThresholds)
    requires |parties| > 0 && forall i :: 0 <= i < |parties| ==> parties[i].marketId in prices
    ensures InInterval(prices, parties, now, th) <==>
      && NoneAfter(QuoteTimes(parties), now)
      && NoneBefore(QuoteTimes(parties), now - th.maxSettleWindowSecs)
      && NoneBefore(PriceTimes(prices, parties), now - th.maxPriceAgeSecs)
  {
    GreatestBounds(QuoteTimes(parties), now);
    LeastBounds(QuoteTimes(parties), now - th.maxSettleWindowSecs);
    LeastBounds(PriceTimes(prices, parties), now - th.maxPriceAgeSecs);
  }

  lemma TimesBound(prices: Prices, parties: seq<PartyContext>, now: U64, th: DarkPoolThresholds)
    requires forall i :: 0 <= i < |parties| ==>
      parties[i].commitment.anchor.TeeDrandConsistent(th.anchorConsistency) && parties[i].marketId in prices
    ensures (forall i :: 0 <= i < |parties| ==> FreshParty(prices, parties[i], now, th)) <==>
      && NoneAfter(QuoteTimes(parties), now)
      && NoneBefore(QuoteTimes(parties), now - th.maxSettleWindowSecs)
      && NoneBefore(PriceTimes(prices, parties), now - th.maxPriceAgeSecs)
  {
    var quotes, asOf := QuoteTimes(parties), PriceTimes(prices, parties);
    if forall i :: 0 <= i < |parties| ==> FreshParty(prices, parties[i], now, th) {
      forall x | x in quotes ensures now - th.maxSettleWindowSecs <= x <= now {
        var i :| 0 <= i < |quotes| && quotes[i] == x;
        assert FreshParty(prices, parties[i], now, th);
      }
      forall x | x in asOf ensures now - th.maxPriceAgeSecs <= x {
        var i :| 0 <= i < |asOf| && asOf[i] == x;
        assert FreshParty(prices, parties[i], now, th);
      }
    } else {
      var i :| 0 <= i < |parties| && !FreshParty(prices, parties[i], now, th);
      assert quotes[i] in quotes && asOf[i] in asOf;
    }
  }

  /** In a cleared trade every party's TEE clock is within tolerance of its Drand
      round, in Unix seconds. */
  lemma ClearAnchorsAgree(crypto: Crypto, prices: Prices, parties: seq<PartyContext>, now: U64, th: DarkPoolThresholds,
                          i: nat)
    requires i < |parties| && Judge(crypto, prices, parties, now, th) == Clear
    requires parties[i].commitment.anchor.InRange() && TolerancesInRange(th.anchorConsistency)
    ensures var a, t := parties[i].commitment.anchor, th.anchorConsistency;
      Apart(a.teeTimestamp / 1_000_000_000, 1_595_431_050 + 30 * a.drandRound, t.teeSkewSecs + 30 * t.drandSkew)
  {
    ClearMeansAllFresh(crypto, prices, parties, now, th);
    ExactLegs(parties[i].commitment.anchor, th.anchorConsistency);
  }

  // ---------- what a clear verdict rests on ----------

  /** The party signed its commitment, disclosed the committed context, and was
      quoted on a price admitted for its own market, the last one presented. */
  ghost predicate Backed(crypto: Crypto, pin: Option<Hash32>, calls: seq<PriceAttestation>, p: PartyContext) {
    var c := p.commitment;
    && crypto.verifies(c.publicKey, crypto.sha256(DigestPreimage(c.contextRoot, c.anchor, c.outputHash)), c.signature)
    && crypto.sha256(p.root.Preimage()) == c.contextRoot
    && exists k :: LastPrice(crypto, pin, calls, k, p.marketId)
  }

  /** The `k`-th call presented an admitted price for this market, and no later call did. */
  ghost predicate LastPrice(crypto: Crypto, pin: Option<Hash32>, calls: seq<PriceAttestation>, k: nat, market: Hash32) {
    && k < |calls| && SignedUnder(crypto, pin, calls[k]) && calls[k].marketId == market
    && forall j :: k < j < |calls| && calls[j].marketId == market ==> !SignedUnder(crypto, pin, calls[j])
  }

  /** Over every run of `present_price`, a clear verdict rests on every party's
      signature and context and on admitted prices for their own markets. */
  lemma ClearIsBacked(crypto: Crypto, pin: Option<Hash32>, calls: seq<PriceAttestation>, parties: seq<PartyContext>,
                      now: U64, th: DarkPoolThresholds)
    requires Judge(crypto, Fold(Log(crypto, pin, calls)), parties, now, th) == Clear
    ensures forall i :: 0 <= i < |parties| ==> Backed(crypto, pin, calls, parties[i])
  {
    var prices := Fold(Log(crypto, pin, calls));
    ClearMeansAllFresh(crypto, prices, parties, now, th);
    forall i | 0 <= i < |parties| ensures Backed(crypto, pin, calls, parties[i]) {
      assert parties[i].marketId in prices;
      var k := PriceInForce(crypto, pin, calls, parties[i].marketId);
    }
  }

  lemma PriceInForce(crypto: Crypto, pin: Option<Hash32>, calls: seq<PriceAttestation>, market: Hash32) returns (k: nat)
    requires market in Fold(Log(crypto, pin, calls))
    ensures LastPrice(crypto, pin, calls, k, market) && Fold(Log(crypto, pin, calls))[market] == calls[k]
  {
    var items := Log(crypto, pin, calls);
    FoldHoldsLastAccepted(items, market);
    k :| LastAccepted(items, k, market, Fold(items)[market]);
    assert items[k] == Accepted(crypto, pin, calls[k]);
    AdmittedIff(crypto, pin, calls[k]);
    forall j | k < j < |calls| && calls[j].marketId == market ensures !SignedUnder(crypto, pin, calls[j]) {
      AdmittedIff(crypto, pin, calls[j]);
      assert items[j] == Accepted(crypto, pin, calls[j]) && !AcceptedUnder(items[j], market);
    }
  }

  /** `present_price` has no recency check, but a replay can only age a price:
      replacing a held price by one as of an earlier instant never lets a trade
      clear that did not clear before. */
  lemma OlderPriceNeverClears(crypto: Crypto, prices: Prices, older: PriceAttestation, parties: seq<PartyContext>,
                              now: U64, th: DarkPoolThresholds)
    requires older.marketId in prices && older.priceAsOfSecs <= prices[older.marketId].priceAsOfSecs
    requires Judge(crypto, prices[older.marketId := older], parties, now, th) == Clear
    ensures Judge(crypto, prices, parties, now, th) == Clear
  {
    var replayed := prices[older.marketId := older];
    ClearMeansAllFresh(crypto, replayed, parties, now, th);
    ClearMeansAllFresh(crypto, prices, parties, now, th);
    forall i | 0 <= i < |parties| ensures FreshParty(prices, parties[i], now, th) {
      assert FreshParty(replayed, parties[i], now, th);
    }
  }
}
