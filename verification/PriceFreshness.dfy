/** Signed market prices and how old they are (src/price_freshness.rs). */
module PriceFreshness {
  import opened Types
  import opened Text
  import opened Json
  import opened Canonical
  import opened Registries

  datatype PriceAttestation = PriceAttestation(
    marketId: Hash32,
    price: U64,
    priceAsOfSecs: U64,
    signature: Option<Signature>,
    publicKey: Option<Hash32>)
  {
    function MessageValue(): Value {
      Object([Member("domain", String("poc/price/0.1")),
              Member("market_id", String(HexEncode(marketId))),
              Member("price", Int(price)),
              Member("price_as_of_secs", Int(priceAsOfSecs))])
    }

    function SigningMessage(): string {
      CanonicalJson(MessageValue())
    }

    function VerifySignature(crypto: Crypto): Result<()> {
      if signature.None? || publicKey.None? then Err(InvalidSignature)
      else if crypto.verifies(publicKey.value, Utf8(SigningMessage()), signature.value) then Ok(())
      else Err(InvalidSignature)
    }
  }

  lemma SameMember(ms: seq<Member>, ns: seq<Member>, i: nat)
    requires Same(Object(ms), Object(ns)) && i < |ms| && ms[i].key == ns[i].key
    ensures Same(ms[i].value, ns[i].value)
  {}

  lemma MessageWellFormed(a: PriceAttestation)
    ensures WellFormed(a.MessageValue())
  {}

  lemma SameMessages(a: PriceAttestation, b: PriceAttestation)
    requires Same(a.MessageValue(), b.MessageValue())
    ensures HexEncode(a.marketId) == HexEncode(b.marketId) && a.price == b.price && a.priceAsOfSecs == b.priceAsOfSecs
  {
    var ms, ns := a.MessageValue().members, b.MessageValue().members;
    SameMember(ms, ns, 1);
    SameMember(ms, ns, 2);
    SameMember(ms, ns, 3);
  }

  /** The message determines the market, the price and its instant. */
  lemma SigningMessageInjective(a: PriceAttestation, b: PriceAttestation)
    requires a.SigningMessage() == b.SigningMessage()
    ensures a.marketId == b.marketId && a.price == b.price && a.priceAsOfSecs == b.priceAsOfSecs
  {
    MessageWellFormed(a);
    MessageWellFormed(b);
    CanonicalJsonDecidesSame(a.MessageValue(), b.MessageValue());
    SameMessages(a, b);
    HexInjective(a.marketId, b.marketId);
  }

  /** A reader of the signed text finds each field under its own name. */
  lemma SignedFieldsByName(a: PriceAttestation, v: Value)
    requires WellFormed(v) && CanonicalJson(v) == a.SigningMessage()
    ensures Holds(v, "domain", String("poc/price/0.1")) && Holds(v, "market_id", String(HexEncode(a.marketId)))
    ensures Holds(v, "price", Int(a.price)) && Holds(v, "price_as_of_secs", Int(a.priceAsOfSecs))
  {
    var ms := a.MessageValue().members;
    TextHoldsMembers(ms, v);
    assert Holds(v, ms[0].key, ms[0].value) && Holds(v, ms[1].key, ms[1].value);
    assert Holds(v, ms[2].key, ms[2].value) && Holds(v, ms[3].key, ms[3].value);
  }

  type Prices = map<Hash32, PriceAttestation>

  predicate Admitted(crypto: Crypto, pin: Option<Hash32>, att: PriceAttestation) {
    att.VerifySignature(crypto).Ok? && (pin.Some? ==> att.publicKey == pin)
  }

  /** A key signed the canonical text of the attestation's fields, and it is the
      pinned one if there is a pin. */
  predicate SignedUnder(crypto: Crypto, pin: Option<Hash32>, att: PriceAttestation) {
    && att.signature.Some? && att.publicKey.Some?
    && crypto.verifies(att.publicKey.value, Utf8(CanonicalJson(att.MessageValue())), att.signature.value)
    && (pin.Some? ==> att.publicKey.value == pin.value)
  }

  lemma AdmittedIff(crypto: Crypto, pin: Option<Hash32>, att: PriceAttestation)
    ensures Admitted(crypto, pin, att) <==> SignedUnder(crypto, pin, att)
    ensures att.VerifySignature(crypto).Err? ==> att.VerifySignature(crypto) == Err(InvalidSignature)
  {}

  /** What a presentation adds: the price, under its market. */
  function Accepted(crypto: Crypto, pin: Option<Hash32>, att: PriceAttestation): Option<(Hash32, PriceAttestation)> {
    if Admitted(crypto, pin, att) then Some((att.marketId, att)) else None
  }

  function PriceAge(prices: Prices, market: Hash32, now: U64): Result<U64> {
    if market in prices then Ok(SatSub(now, prices[market].priceAsOfSecs)) else Err(OracleUnavailable)
  }

  /** The age is the seconds since the price's instant, none for one in the
      future, and unavailable for a market without a price. */
  lemma PriceAgeMeans(prices: Prices, market: Hash32, now: U64)
    ensures market !in prices ==> PriceAge(prices, market, now) == Err(OracleUnavailable)
    ensures market in prices ==>
      PriceAge(prices, market, now)
        == Ok(if now <= prices[market].priceAsOfSecs then 0 else now - prices[market].priceAsOfSecs)
  {}

  class PriceFreshnessOracle {
    const expectedPubkey: Option<Hash32>
    var byMarket: Prices

    constructor (pin: Option<Hash32>)
      ensures expectedPubkey == pin && byMarket == map[]
    {
      expectedPubkey := pin;
      byMarket := map[];
    }

    method PresentPrice(crypto: Crypto, att: PriceAttestation) returns (r: Result<()>)
      modifies this
      ensures r == if SignedUnder(crypto, expectedPubkey, att) then Ok(()) else Err(InvalidSignature)
      ensures byMarket == Put(old(byMarket), Accepted(crypto, expectedPubkey, att))
      ensures byMarket == if r.Ok? then old(byMarket)[att.marketId := att] else old(byMarket)
    {
      AdmittedIff(crypto, expectedPubkey, att);
      var verified := att.VerifySignature(crypto);
      if verified.Err? {
        return Err(verified.error);
      }
      if expectedPubkey.Some? && att.publicKey != expectedPubkey {
        return Err(InvalidSignature);
      }
      byMarket := byMarket[att.marketId := att];
      r := Ok(());
    }

    method PriceAgeSecs(market: Hash32, now: U64) returns (r: Result<U64>)
      ensures r == PriceAge(byMarket, market, now)
    {
      if market !in byMarket {
        return Err(OracleUnavailable);
      }
      r := Ok(SatSub(now, byMarket[market].priceAsOfSecs));
    }
  }

  /** What each call of a run adds. */
  function Log(crypto: Crypto, pin: Option<Hash32>,
               calls: seq<PriceAttestation>): (r: seq<Option<(Hash32, PriceAttestation)>>)
    ensures |r| == |calls| && forall i :: 0 <= i < |r| ==> r[i] == Accepted(crypto, pin, calls[i])
  {
    seq(|calls|, i requires 0 <= i < |calls| => Accepted(crypto, pin, calls[i]))
  }

  /** After any run, a market has a price exactly when one was accepted for it;
      the price is the last accepted one, verifies under the pin, and sits
      under its own market. */
  lemma RegistryHoldsAdmittedPrices(crypto: Crypto, pin: Option<Hash32>, calls: seq<PriceAttestation>, market: Hash32)
    ensures var items := Log(crypto, pin, calls);
      market in Fold(items) <==> exists k :: 0 <= k < |items| && AcceptedUnder(items[k], market)
    ensures var items := Log(crypto, pin, calls);
      market in Fold(items) ==> exists k :: LastAccepted(items, k, market, Fold(items)[market])
    ensures var items := Log(crypto, pin, calls);
      market in Fold(items) ==> SignedUnder(crypto, pin, Fold(items)[market]) && Fold(items)[market].marketId == market
  {
    var items := Log(crypto, pin, calls);
    FoldHoldsLastAccepted(items, market);
    if market in Fold(items) {
      var k: nat :| LastAccepted(items, k, market, Fold(items)[market]);
      assert items[k] == Accepted(crypto, pin, calls[k]);
      AdmittedIff(crypto, pin, calls[k]);
    }
  }
}
