/** The input-freshness oracle (src/input_freshness.rs): signed attestations,
    witnesses indexed by their manifest root, and the lag of the stalest source. */
module InputFreshness {
  import opened Types
  import opened Sequences
  import opened Text
  import opened Json
  import opened Readability
  import opened Canonical
  import opened Anchor
  import opened Calendar
  import opened Registries
  import opened Traversal

  datatype InputAttestation = InputAttestation(
    sourceId: string,
    endpoint: string,
    payloadHash: Hash32,
    timestamp: string,
    freshnessHorizonSecs: U64,
    anchorBlockHeight: Option<U64>,
    signature: Option<Signature>,
    publicKey: Option<Hash32>,
    freshnessType: string)
  {
    /** The operator's message: members in insertion order, not sorted. */
    function SigningMessage(): string {
      "{\"payload_hash\":" + (Quote(HexEncode(payloadHash))
      + (",\"source_id\":" + (Quote(sourceId)
      + (",\"endpoint\":" + (Quote(endpoint)
      + (",\"timestamp\":" + (Quote(timestamp) + MessageEnd())))))))
    }

    function MessageEnd(): string {
      ",\"freshness_horizon_seconds\":" + (Decimal(freshnessHorizonSecs)
      + (",\"freshness_type\":" + (Quote(freshnessType) + "}")))
    }

    function VerifySignature(crypto: Crypto): Result<()> {
      if signature.None? || publicKey.None? then Err(InvalidSignature)
      else if crypto.verifies(publicKey.value, Utf8(SigningMessage()), signature.value) then Ok(())
      else Err(InvalidSignature)
    }

    /** The signed block anchor, or, under `real-anchors`, the block derived
        from the signed timestamp. */
    function AsOfBlock(realAnchors: bool): Result<U64> {
      if anchorBlockHeight.Some? then Ok(anchorBlockHeight.value)
      else if realAnchors then
        match ParseIso8601(timestamp)
        case Err(e) => Err(e)
        case Ok(secs) =>
          if secs >= BASE_MAINNET_GENESIS_UNIX
          then Ok((secs - BASE_MAINNET_GENESIS_UNIX) / BASE_BLOCK_PERIOD_SECS)
          else Err(OracleUnavailable)
      else Err(OracleUnavailable)
    }

    function HorizonBlocks(): U64 {
      freshnessHorizonSecs / BASE_BLOCK_PERIOD_SECS
    }
  }

  // ---------- what the operator's signature covers ----------

  /** The signed document, members in the operator's order. */
  function MessageValue(a: InputAttestation): Value {
    Object([Member("payload_hash", String(HexEncode(a.payloadHash))),
            Member("source_id", String(a.sourceId)),
            Member("endpoint", String(a.endpoint)),
            Member("timestamp", String(a.timestamp)),
            Member("freshness_horizon_seconds", Int(a.freshnessHorizonSecs)),
            Member("freshness_type", String(a.freshnessType))])
  }

  lemma FirstLabels(k: string, l: string, m: string)
    requires k == "payload_hash" && l == "source_id" && m == "endpoint"
    ensures Introduces("{\"payload_hash\":", "{", k)
    ensures Introduces(",\"source_id\":", ",", l)
    ensures Introduces(",\"endpoint\":", ",", m)
  {}

  lemma LastLabels(k: string, l: string)
    requires k == "timestamp" && l == "freshness_type"
    ensures Introduces(",\"timestamp\":", ",", k)
    ensures Introduces(",\"freshness_type\":", ",", l)
  {}

  lemma HorizonLabel(k: string)
    requires k == "freshness_horizon_seconds"
    ensures Introduces(",\"freshness_horizon_seconds\":", ",", k)
  {
    HorizonText();
    assert "," + ("\"" + k + "\":") == (",\"" + k) + "\":";
  }

  lemma HorizonText()
    ensures ",\"" + "freshness_horizon_seconds" + "\":" == ",\"freshness_horizon_seconds\":"
  {
    assert ",\"" + "freshness_horizon_seconds" == ",\"freshness_horizon_seconds";
  }

  /** Six labels, each followed by its member's value, and a closing brace. */
  lemma SixFields(ms: seq<Member>, p: string, s: string, e: string, t: string, h: string, f: string)
    requires |ms| == 6
    requires Introduces(p, "{", ms[0].key) && Introduces(s, ",", ms[1].key) && Introduces(e, ",", ms[2].key)
    requires Introduces(t, ",", ms[3].key) && Introduces(h, ",", ms[4].key) && Introduces(f, ",", ms[5].key)
    ensures Print(Object(ms)) ==
      p + (Print(ms[0].value) + (s + (Print(ms[1].value) + (e + (Print(ms[2].value) + (t + (Print(ms[3].value)
      + (h + (Print(ms[4].value) + (f + (Print(ms[5].value) + "}")))))))))))
  {
    NextField(ms, 5, f);
    NextField(ms, 4, h);
    NextField(ms, 3, t);
    NextField(ms, 2, e);
    NextField(ms, 1, s);
    FieldText(p, "{", ms[0], PrintMoreMembers(ms[1..]));
    assert Print(Object(ms)) == "{" + PrintMembers(ms);
  }

  /** The hand-assembled message is that document's compact text. */
  lemma SigningMessageIsJson(a: InputAttestation)
    ensures a.SigningMessage() == Print(Object([
              Member("payload_hash", String(HexEncode(a.payloadHash))),
              Member("source_id", String(a.sourceId)),
              Member("endpoint", String(a.endpoint)),
              Member("timestamp", String(a.timestamp)),
              Member("freshness_horizon_seconds", Int(a.freshnessHorizonSecs)),
              Member("freshness_type", String(a.freshnessType))]))
    ensures a.SigningMessage() == Print(MessageValue(a))
  {
    var ms := MessageValue(a).members;
    FirstLabels(ms[0].key, ms[1].key, ms[2].key);
    LastLabels(ms[3].key, ms[5].key);
    HorizonLabel(ms[4].key);
    SixFields(ms, "{\"payload_hash\":", ",\"source_id\":", ",\"endpoint\":", ",\"timestamp\":",
              ",\"freshness_horizon_seconds\":", ",\"freshness_type\":");
  }

  /** The message determines every field the operator signs; the block anchor
      and the signature itself are not among them. */
  lemma SigningMessageInjective(a: InputAttestation, b: InputAttestation)
    requires a.SigningMessage() == b.SigningMessage()
    ensures b == a.(anchorBlockHeight := b.anchorBlockHeight, signature := b.signature, publicKey := b.publicKey)
  {
    SigningMessageIsJson(a);
    SigningMessageIsJson(b);
    PrintInjective(MessageValue(a), MessageValue(b));
    var ms, ns := MessageValue(a).members, MessageValue(b).members;
    assert ms[0] == ns[0] && ms[1] == ns[1] && ms[2] == ns[2] && ms[3] == ns[3] && ms[4] == ns[4] && ms[5] == ns[5];
    HexInjective(a.payloadHash, b.payloadHash);
  }

  /** A key signed the compact JSON text of the attestation's six fields. */
  predicate Signed(crypto: Crypto, a: InputAttestation) {
    && a.signature.Some? && a.publicKey.Some?
    && crypto.verifies(a.publicKey.value, Utf8(Print(MessageValue(a))), a.signature.value)
  }

  lemma SignatureMeans(crypto: Crypto, a: InputAttestation)
    ensures a.VerifySignature(crypto) == if Signed(crypto, a) then Ok(()) else Err(InvalidSignature)
  {
    SigningMessageIsJson(a);
  }

  /** The block anchor is outside the signed message. */
  lemma AnchorHeightIsUnsigned(crypto: Crypto, a: InputAttestation, height: Option<U64>)
    ensures a.(anchorBlockHeight := height).VerifySignature(crypto) == a.VerifySignature(crypto)
    ensures Signed(crypto, a.(anchorBlockHeight := height)) <==> Signed(crypto, a)
  {}

  /** A timestamped attestation without a block anchor is dated by the block
      whose two-second slot contains the signed instant. */
  lemma DerivedBlockBracketsInstant(a: InputAttestation, t: nat, millis: nat)
    requires a.anchorBlockHeight.None? && t < 253402300800
    requires CivilOf(t).year < 10000 && a.timestamp == IsoText(CivilOf(t), millis)
    ensures t < BASE_MAINNET_GENESIS_UNIX ==> a.AsOfBlock(true) == Err(OracleUnavailable)
    ensures t >= BASE_MAINNET_GENESIS_UNIX ==> a.AsOfBlock(true).Ok? && SlotContains(a.AsOfBlock(true).value, t)
  {
    TimestampRoundTrip(t, millis);
  }

  predicate SlotContains(block: U64, t: nat) {
    BASE_MAINNET_GENESIS_UNIX + 2 * block <= t < BASE_MAINNET_GENESIS_UNIX + 2 * block + 2
  }

  // ---------- witnesses ----------

  datatype InputFreshnessWitness = InputFreshnessWitness(attestations: seq<InputAttestation>)

  /** What one decoded `_poc` block must pass, in the order it is checked. */
  function CheckBlock(crypto: Crypto, pin: Option<Hash32>, block: Result<InputAttestation>): Result<InputAttestation> {
    match block
    case Err(e) => Err(e)
    case Ok(att) =>
      if att.freshnessType != "f_i" then Err(ContextRootMalformed("freshness_type != f_i"))
      else
        match att.VerifySignature(crypto)
        case Err(e) => Err(e)
        case Ok(_) =>
          if pin.Some? && att.publicKey != pin then Err(InvalidSignature) else Ok(att)
  }

  /** The attestations of the blocks, or the error of the first block that fails. */
  function CheckBlocks(crypto: Crypto, pin: Option<Hash32>,
                       blocks: seq<Result<InputAttestation>>): Result<seq<InputAttestation>> {
    Traverse(Checker(crypto, pin), blocks)
  }

  function Checker(crypto: Crypto, pin: Option<Hash32>): Result<InputAttestation> -> Result<InputAttestation> {
    block => CheckBlock(crypto, pin, block)
  }

  function FromPocBlocks(crypto: Crypto, pin: Option<Hash32>,
                         blocks: seq<Result<InputAttestation>>): Result<InputFreshnessWitness> {
    if |blocks| == 0 then Err(ContextRootMalformed("empty witness"))
    else
      match CheckBlocks(crypto, pin, blocks)
      case Err(e) => Err(e)
      case Ok(atts) => Ok(InputFreshnessWitness(atts))
  }

  /** `from_poc_blocks`: checks block by block and stops at the first failure.
      A block is what decoding its JSON gave. */
  method BuildWitness(crypto: Crypto, pin: Option<Hash32>, blocks: seq<Result<InputAttestation>>)
    returns (r: Result<InputFreshnessWitness>)
    ensures r == FromPocBlocks(crypto, pin, blocks)
  {
    if |blocks| == 0 {
      return Err(ContextRootMalformed("empty witness"));
    }
    var checked := TraverseInOrder(Checker(crypto, pin), blocks);
    r := match checked case Err(e) => Err(e) case Ok(attestations) => Ok(InputFreshnessWitness(attestations));
  }

  predicate Admitted(crypto: Crypto, pin: Option<Hash32>, att: InputAttestation) {
    && att.freshnessType == "f_i"
    && Signed(crypto, att)
    && (pin.Some? ==> att.publicKey == pin)
  }

  /** A block passes exactly when it decodes and is admitted; otherwise its own
      decoding error comes back, or the one of the first check it fails. */
  lemma CheckBlockAdmits(crypto: Crypto, pin: Option<Hash32>, block: Result<InputAttestation>)
    ensures var r := CheckBlock(crypto, pin, block);
      && (r.Ok? <==> block.Ok? && Admitted(crypto, pin, block.value))
      && (r.Ok? || block.Err? ==> r == block)
      && (block.Ok? && block.value.freshnessType != "f_i" ==> r == Err(ContextRootMalformed("freshness_type != f_i")))
      && (block.Ok? && block.value.freshnessType == "f_i" && r.Err? ==> r == Err(InvalidSignature))
  {
    if block.Ok? {
      SignatureMeans(crypto, block.value);
    }
  }

  lemma CheckedBlocks(crypto: Crypto, pin: Option<Hash32>, blocks: seq<Result<InputAttestation>>)
    requires CheckBlocks(crypto, pin, blocks).Ok?
    ensures |CheckBlocks(crypto, pin, blocks).value| == |blocks|
    ensures forall i :: 0 <= i < |blocks| ==> blocks[i] == Ok(CheckBlocks(crypto, pin, blocks).value[i])
    ensures forall i :: 0 <= i < |blocks| ==> blocks[i].Ok? && Admitted(crypto, pin, blocks[i].value)
  {
    TraverseOk(Checker(crypto, pin), blocks);
    forall i | 0 <= i < |blocks|
      ensures blocks[i] == Ok(CheckBlocks(crypto, pin, blocks).value[i])
      ensures blocks[i].Ok? && Admitted(crypto, pin, blocks[i].value)
    {
      CheckBlockAdmits(crypto, pin, blocks[i]);
    }
  }

  /** Every block decodes and is admitted. */
  ghost predicate AllPass(crypto: Crypto, pin: Option<Hash32>, blocks: seq<Result<InputAttestation>>) {
    forall i :: 0 <= i < |blocks| ==> blocks[i].Ok? && Admitted(crypto, pin, blocks[i].value)
  }

  /** A witness is built exactly from a nonempty list of blocks that all decode
      and are admitted, and holds their attestations in order; any other list
      is refused with the error of its first failing block. */
  lemma WitnessBuiltIff(crypto: Crypto, pin: Option<Hash32>, blocks: seq<Result<InputAttestation>>)
    ensures var r := FromPocBlocks(crypto, pin, blocks);
      && (r.Ok? <==> |blocks| > 0 && AllPass(crypto, pin, blocks))
      && (r.Ok? ==> |r.value.attestations| == |blocks|)
      && (r.Ok? ==> forall i :: 0 <= i < |blocks| ==> blocks[i] == Ok(r.value.attestations[i]))
      && (|blocks| == 0 ==> r == Err(ContextRootMalformed("empty witness")))
      && (r.Err? && |blocks| > 0 ==> exists k :: FirstFailure(Checker(crypto, pin), blocks, k, r.error))
  {
    if CheckBlocks(crypto, pin, blocks).Ok? {
      CheckedBlocks(crypto, pin, blocks);
    } else {
      var k := TraverseErr(Checker(crypto, pin), blocks);
      CheckBlockAdmits(crypto, pin, blocks[k]);
    }
  }

  // ---------- the manifest ----------

  /** Ordered by endpoint, then payload hash; the source id does not take part. */
  predicate DescriptorLeq(a: InputAttestation, b: InputAttestation) {
    if a.endpoint == b.endpoint then LexLeq(a.payloadHash, b.payloadHash) else StrLeq(a.endpoint, b.endpoint)
  }

  lemma DescriptorOrder()
    ensures TotalPreorder(DescriptorLeq)
  {
    StrOrder();
    forall a, b ensures DescriptorLeq(a, b) || DescriptorLeq(b, a) {
      LexTotal(a.payloadHash, b.payloadHash);
    }
    forall a, b, c | DescriptorLeq(a, b) && DescriptorLeq(b, c) ensures DescriptorLeq(a, c) {
      if a.endpoint == b.endpoint == c.endpoint {
        LexTransitive(a.payloadHash, b.payloadHash, c.payloadHash);
      } else if a.endpoint == c.endpoint {
        StrAntisymmetric(a.endpoint, b.endpoint);
      }
    }
  }

  lemma DescriptorTies(a: InputAttestation, b: InputAttestation)
    ensures Ties(a, b, DescriptorLeq) <==> a.endpoint == b.endpoint && a.payloadHash == b.payloadHash
  {
    if Ties(a, b, DescriptorLeq) {
      if a.endpoint == b.endpoint {
        LexAntisymmetric(a.payloadHash, b.payloadHash);
      } else {
        StrAntisymmetric(a.endpoint, b.endpoint);
      }
    }
    LexTotal(a.payloadHash, a.payloadHash);
  }

  /** What the manifest says about a source. */
  datatype Source = Source(endpoint: string, payloadHash: Hash32, sourceId: string)

  function SourceOf(a: InputAttestation): Source {
    Source(a.endpoint, a.payloadHash, a.sourceId)
  }

  function SourceValue(s: Source): Value {
    Object([Member("endpoint", String(s.endpoint)),
            Member("payload_hash", String(HexEncode(s.payloadHash))),
            Member("source_id", String(s.sourceId))])
  }

  function SortedSources(atts: seq<InputAttestation>): seq<Source> {
    Map(SourceOf, Sort(atts, DescriptorLeq))
  }

  function ManifestValue(sources: seq<Source>): Value {
    Object([Member("sources", Array(Map(SourceValue, sources))),
            Member("version", String("f_i/0.1"))])
  }

  /** The text whose hash is the manifest root. */
  function ManifestText(atts: seq<InputAttestation>): string {
    CanonicalJson(ManifestValue(SortedSources(atts)))
  }

  function ManifestRoot(crypto: Crypto, w: InputFreshnessWitness): Hash32 {
    CanonicalHash(crypto, ManifestValue(SortedSources(w.attestations)))
  }

  lemma SourceValueInjective(a: Source, b: Source)
    requires Same(SourceValue(a), SourceValue(b))
    ensures a == b
  {
    var ms, ns := SourceValue(a).members, SourceValue(b).members;
    assert ms[0].key == ns[0].key && ms[1].key == ns[1].key && ms[2].key == ns[2].key;
    assert Same(ms[0].value, ns[0].value) && Same(ms[1].value, ns[1].value) && Same(ms[2].value, ns[2].value);
    HexInjective(a.payloadHash, b.payloadHash);
  }

  lemma ManifestWellFormed(sources: seq<Source>)
    ensures WellFormed(ManifestValue(sources))
  {
    assert forall i :: 0 <= i < |sources| ==> WellFormed(SourceValue(sources[i]));
    var ms := ManifestValue(sources).members;
    assert WellFormed(ms[0].value) && WellFormed(ms[1].value);
  }

  /** Equal manifest texts list the same sources in the same order. */
  lemma ManifestTextInjective(xs: seq<Source>, ys: seq<Source>)
    requires CanonicalJson(ManifestValue(xs)) == CanonicalJson(ManifestValue(ys))
    ensures xs == ys
  {
    ManifestWellFormed(xs);
    ManifestWellFormed(ys);
    CanonicalJsonDecidesSame(ManifestValue(xs), ManifestValue(ys));
    var ms, ns := ManifestValue(xs).members, ManifestValue(ys).members;
    assert ms[0].key == ns[0].key && Same(ms[0].value, ns[0].value);
    forall i | 0 <= i < |xs| ensures xs[i] == ys[i] {
      assert Same(ms[0].value.items[i], ns[0].value.items[i]);
      SourceValueInjective(xs[i], ys[i]);
    }
  }

  /** The manifest commits to the multiset of (endpoint, payload hash, source id). */
  lemma ManifestCommitsToSources(xs: seq<InputAttestation>, ys: seq<InputAttestation>)
    requires ManifestText(xs) == ManifestText(ys)
    ensures multiset(Map(SourceOf, xs)) == multiset(Map(SourceOf, ys))
  {
    ManifestTextInjective(SortedSources(xs), SortedSources(ys));
    DescriptorOrder();
    SortSorts(xs, DescriptorLeq);
    SortSorts(ys, DescriptorLeq);
    MapPermutes(SourceOf, Sort(xs, DescriptorLeq), xs);
    MapPermutes(SourceOf, Sort(ys, DescriptorLeq), ys);
  }

  ghost predicate SpellsSource(v: Value, s: Source) {
    && Holds(v, "endpoint", String(s.endpoint))
    && Holds(v, "payload_hash", String(HexEncode(s.payloadHash)))
    && Holds(v, "source_id", String(s.sourceId))
  }

  ghost predicate SpellsSources(v: Value, sources: seq<Source>) {
    && v.Array? && |v.items| == |sources|
    && forall i :: 0 <= i < |sources| ==> SpellsSource(v.items[i], sources[i])
  }

  /** The document lists exactly these sources, in order, under "sources". */
  ghost predicate HoldsSources(v: Value, sources: seq<Source>) {
    && v.Object?
    && exists j :: 0 <= j < |v.members| && v.members[j].key == "sources" && SpellsSources(v.members[j].value, sources)
  }

  lemma SourceSpelled(s: Source, v: Value)
    requires Same(SourceValue(s), v)
    ensures SpellsSource(v, s)
  {
    var ms := SourceValue(s).members;
    SameHoldsMembers(ms, v);
    assert Holds(v, ms[0].key, ms[0].value) && Holds(v, ms[1].key, ms[1].value) && Holds(v, ms[2].key, ms[2].value);
  }

  lemma SourcesSpelled(sources: seq<Source>, v: Value)
    requires Same(Array(Map(SourceValue, sources)), v)
    ensures SpellsSources(v, sources)
  {
    var values := Map(SourceValue, sources);
    forall i | 0 <= i < |sources| ensures SpellsSource(v.items[i], sources[i]) {
      assert Same(values[i], v.items[i]);
      SourceSpelled(sources[i], v.items[i]);
    }
  }

  /** A reader of the manifest finds the sources in sorted order, each field
      under its own name. */
  lemma ManifestReadsBack(atts: seq<InputAttestation>, v: Value)
    requires WellFormed(v) && CanonicalJson(v) == ManifestText(atts)
    ensures HoldsSources(v, SortedSources(atts))
    ensures Holds(v, "version", String("f_i/0.1"))
  {
    var sources := SortedSources(atts);
    ManifestWellFormed(sources);
    var ms := ManifestValue(sources).members;
    TextHoldsMembers(ms, v);
    assert Holds(v, ms[0].key, ms[0].value) && Holds(v, ms[1].key, ms[1].value);
    var j :| 0 <= j < |v.members| && v.members[j].key == ms[0].key && Same(ms[0].value, v.members[j].value);
    SourcesSpelled(sources, v.members[j].value);
  }

  /** The manifest lists its sources by endpoint, then by payload hash. */
  lemma ManifestSorted(atts: seq<InputAttestation>, i: nat, j: nat)
    requires i < j < |SortedSources(atts)|
    ensures var a, b := SortedSources(atts)[i], SortedSources(atts)[j];
      StrLeq(a.endpoint, b.endpoint) && (a.endpoint == b.endpoint ==> LexLeq(a.payloadHash, b.payloadHash))
  {
    DescriptorOrder();
    SortSorts(atts, DescriptorLeq);
    var sorted := Sort(atts, DescriptorLeq);
    assert DescriptorLeq(sorted[i], sorted[j]);
    StrOrder();
    assert StrLeq(sorted[i].endpoint, sorted[i].endpoint);
  }

  /** The root is the hash of the manifest text. */
  lemma ManifestRootIsHash(crypto: Crypto, w: InputFreshnessWitness)
    ensures ManifestRoot(crypto, w) == crypto.sha256(Utf8(ManifestText(w.attestations)))
  {}

  /** Barring a collision of the two texts, one root means one multiset of sources. */
  lemma ManifestRootCommits(crypto: Crypto, v: InputFreshnessWitness, w: InputFreshnessWitness)
    requires crypto.NoCollision(Utf8(ManifestText(v.attestations)), Utf8(ManifestText(w.attestations)))
    requires ManifestRoot(crypto, v) == ManifestRoot(crypto, w)
    ensures multiset(Map(SourceOf, v.attestations)) == multiset(Map(SourceOf, w.attestations))
  {
    Utf8Injective(ManifestText(v.attestations), ManifestText(w.attestations));
    ManifestCommitsToSources(v.attestations, w.attestations);
  }

  ghost predicate TiedSourcesAgree(atts: seq<InputAttestation>) {
    forall i, j :: 0 <= i < |atts| && 0 <= j < |atts|
      && atts[i].endpoint == atts[j].endpoint && atts[i].payloadHash == atts[j].payloadHash
      ==> atts[i].sourceId == atts[j].sourceId
  }

  lemma SameSources(a: seq<InputAttestation>, b: seq<InputAttestation>)
    ensures SameView(a, b, SourceOf) <==> Map(SourceOf, a) == Map(SourceOf, b)
  {
    if Map(SourceOf, a) == Map(SourceOf, b) {
      assert |a| == |Map(SourceOf, a)| == |b|;
      forall i | 0 <= i < |a| ensures SourceOf(a[i]) == SourceOf(b[i]) {
        assert Map(SourceOf, a)[i] == Map(SourceOf, b)[i];
      }
    }
  }

  /** The manifest is independent of presentation order exactly when sources
      tied on endpoint and payload hash agree on their source id. */
  lemma ManifestIgnoresOrderIff(atts: seq<InputAttestation>)
    ensures (forall ys :: multiset(ys) == multiset(atts) ==> ManifestText(ys) == ManifestText(atts))
       <==> TiedSourcesAgree(atts)
  {
    DescriptorOrder();
    forall a, b ensures Ties(a, b, DescriptorLeq) <==> a.endpoint == b.endpoint && a.payloadHash == b.payloadHash {
      DescriptorTies(a, b);
    }
    if TiedSourcesAgree(atts) {
      assert TiesAgree(atts, DescriptorLeq, SourceOf);
      forall ys | multiset(ys) == multiset(atts) ensures ManifestText(ys) == ManifestText(atts) {
        SortedViewIgnoresOrder(atts, ys, DescriptorLeq, SourceOf);
        SameSources(Sort(atts, DescriptorLeq), Sort(ys, DescriptorLeq));
      }
    } else {
      var ys := ReorderedManifest(atts);
    }
  }

  lemma ReorderedManifest(atts: seq<InputAttestation>) returns (ys: seq<InputAttestation>)
    requires !TiedSourcesAgree(atts)
    ensures multiset(ys) == multiset(atts) && ManifestText(ys) != ManifestText(atts)
  {
    DescriptorOrder();
    forall a, b ensures Ties(a, b, DescriptorLeq) <==> a.endpoint == b.endpoint && a.payloadHash == b.payloadHash {
      DescriptorTies(a, b);
    }
    OrderIndependentIffTiesAgree(atts, DescriptorLeq, SourceOf);
    var i, j :| 0 <= i < |atts| && 0 <= j < |atts|
      && atts[i].endpoint == atts[j].endpoint && atts[i].payloadHash == atts[j].payloadHash
      && atts[i].sourceId != atts[j].sourceId;
    assert Ties(atts[i], atts[j], DescriptorLeq) && SourceOf(atts[i]) != SourceOf(atts[j]);
    ys :| multiset(ys) == multiset(atts) && !SameView(Sort(ys, DescriptorLeq), Sort(atts, DescriptorLeq), SourceOf);
    SameSources(Sort(ys, DescriptorLeq), Sort(atts, DescriptorLeq));
    if ManifestText(ys) == ManifestText(atts) {
      ManifestTextInjective(SortedSources(ys), SortedSources(atts));
    }
  }

  // ---------- the stalest source governs ----------

  /** The least as-of block, or the first error met: an undatable source, or
      under enforcement one past its own signed horizon. */
  function AsOfBlocks(atts: seq<InputAttestation>, height: U64, enforce: bool, realAnchors: bool): Result<Option<U64>> {
    if |atts| == 0 then Ok(None)
    else
      match AsOfBlocks(atts[..|atts|-1], height, enforce, realAnchors)
      case Err(e) => Err(e)
      case Ok(least) =>
        var att := atts[|atts|-1];
        match att.AsOfBlock(realAnchors)
        case Err(e) => Err(e)
        case Ok(asOf) =>
          if enforce && SatSub(height, asOf) > att.HorizonBlocks() then Err(OracleUnavailable)
          else Ok(Some(if least.None? then asOf else Min(least.value, asOf)))
  }

  function WitnessAsOf(w: InputFreshnessWitness, height: U64, enforce: bool, realAnchors: bool): Result<U64> {
    match AsOfBlocks(w.attestations, height, enforce, realAnchors)
    case Err(e) => Err(e)
    case Ok(least) => if least.None? then Err(OracleUnavailable) else Ok(least.value)
  }

  /** `InputFreshnessWitness::as_of_block`. */
  method ComputeAsOf(w: InputFreshnessWitness, height: U64, enforce: bool, realAnchors: bool) returns (r: Result<U64>)
    ensures r == WitnessAsOf(w, height, enforce, realAnchors)
  {
    var atts := w.attestations;
    var minBlock: Option<U64> := None;
    for i := 0 to |atts|
      invariant AsOfBlocks(atts[..i], height, enforce, realAnchors) == Ok(minBlock)
    {
      assert atts[..i+1][..i] == atts[..i];
      var att := atts[i];
      var asOf := att.AsOfBlock(realAnchors);
      if asOf.Err? {
        AsOfFailureStays(atts, height, enforce, realAnchors, i + 1);
        return Err(asOf.error);
      }
      if enforce {
        var lag := SatSub(height, asOf.value);
        if lag > att.HorizonBlocks() {
          AsOfFailureStays(atts, height, enforce, realAnchors, i + 1);
          return Err(OracleUnavailable);
        }
      }
      minBlock := Some(if minBlock.None? then asOf.value else Min(minBlock.value, asOf.value));
    }
    assert atts[..|atts|] == atts;
    r := if minBlock.None? then Err(OracleUnavailable) else Ok(minBlock.value);
  }

  lemma {:induction false} AsOfFailureStays(atts: seq<InputAttestation>, height: U64, enforce: bool,
                                            realAnchors: bool, n: nat)
    requires n <= |atts| && AsOfBlocks(atts[..n], height, enforce, realAnchors).Err?
    ensures AsOfBlocks(atts, height, enforce, realAnchors) == AsOfBlocks(atts[..n], height, enforce, realAnchors)
    decreases |atts| - n
  {
    if n == |atts| {
      assert atts[..n] == atts;
    } else {
      assert atts[..n+1][..n] == atts[..n];
      AsOfFailureStays(atts, height, enforce, realAnchors, n + 1);
    }
  }

  /** The source can be dated and, if enforced, is within its own horizon, at two
      seconds a block. */
  predicate Answers(att: InputAttestation, height: U64, enforce: bool, realAnchors: bool) {
    && att.AsOfBlock(realAnchors).Ok?
    && (enforce ==> 2 * (height - att.AsOfBlock(realAnchors).value) <= att.freshnessHorizonSecs)
  }

  lemma HorizonInSeconds(att: InputAttestation, lag: nat)
    ensures lag <= att.HorizonBlocks() <==> 2 * lag <= att.freshnessHorizonSecs
  {}

  /** An attestation is dated by its block anchor or, in a build with real anchors
      only, by a well-formed timestamp no earlier than Base genesis. */
  lemma DatableIff(att: InputAttestation, realAnchors: bool)
    ensures att.anchorBlockHeight.Some? ==> att.AsOfBlock(realAnchors) == Ok(att.anchorBlockHeight.value)
    ensures att.anchorBlockHeight.None? && !realAnchors ==> att.AsOfBlock(realAnchors) == Err(OracleUnavailable)
    ensures att.anchorBlockHeight.None? && realAnchors ==>
      var t := ParseIso8601(att.timestamp);
      && (t.Err? ==> att.AsOfBlock(realAnchors) == Err(t.error))
      && (t.Ok? && t.value < 1_686_789_347 ==> att.AsOfBlock(realAnchors) == Err(OracleUnavailable))
      && (t.Ok? && t.value >= 1_686_789_347 ==> att.AsOfBlock(realAnchors) == Ok((t.value - 1_686_789_347) / 2))
  {}

  /** Source `k` is the first that does not answer: it has no date, or is past its horizon. */
  ghost predicate FirstSilent(atts: seq<InputAttestation>, k: nat, height: U64, enforce: bool, realAnchors: bool) {
    && k < |atts| && !Answers(atts[k], height, enforce, realAnchors)
    && forall i :: 0 <= i < k ==> Answers(atts[i], height, enforce, realAnchors)
  }

  /** The error is that of the first source that does not answer. */
  lemma {:induction false} FirstSilentErrs(atts: seq<InputAttestation>, height: U64, enforce: bool, realAnchors: bool)
    returns (k: nat)
    requires AsOfBlocks(atts, height, enforce, realAnchors).Err?
    ensures FirstSilent(atts, k, height, enforce, realAnchors)
    ensures AsOfBlocks(atts, height, enforce, realAnchors)
         == Err(if atts[k].AsOfBlock(realAnchors).Err? then atts[k].AsOfBlock(realAnchors).error else OracleUnavailable)
  {
    var n := |atts| - 1;
    assert forall i :: 0 <= i < n ==> atts[..n][i] == atts[i];
    if AsOfBlocks(atts[..n], height, enforce, realAnchors).Err? {
      k := FirstSilentErrs(atts[..n], height, enforce, realAnchors);
    } else {
      k := n;
      AsOfIsLeast(atts[..n], height, enforce, realAnchors);
      if atts[n].AsOfBlock(realAnchors).Ok? {
        HorizonInSeconds(atts[n], SatSub(height, atts[n].AsOfBlock(realAnchors).value));
      }
    }
  }

  lemma {:induction false} AsOfIsLeast(atts: seq<InputAttestation>, height: U64, enforce: bool, realAnchors: bool)
    ensures AsOfBlocks(atts, height, enforce, realAnchors).Ok?
       <==> forall i :: 0 <= i < |atts| ==> Answers(atts[i], height, enforce, realAnchors)
    ensures AsOfBlocks(atts, height, enforce, realAnchors).Ok? ==>
       LeastAsOf(atts, AsOfBlocks(atts, height, enforce, realAnchors).value, realAnchors)
  {
    if |atts| == 0 {
    } else {
      var n := |atts| - 1;
      AsOfIsLeast(atts[..n], height, enforce, realAnchors);
      assert forall i :: 0 <= i < n ==> atts[..n][i] == atts[i];
      if atts[n].AsOfBlock(realAnchors).Ok? {
        HorizonInSeconds(atts[n], SatSub(height, atts[n].AsOfBlock(realAnchors).value));
      }
      assert AsOfBlocks(atts, height, enforce, realAnchors).Ok? <==>
        AsOfBlocks(atts[..n], height, enforce, realAnchors).Ok? && Answers(atts[n], height, enforce, realAnchors);
    }
  }

  ghost predicate LeastAsOf(atts: seq<InputAttestation>, least: Option<U64>, realAnchors: bool) {
    && (least.None? <==> |atts| == 0)
    && (least.Some? ==>
          && (forall i :: 0 <= i < |atts| ==> atts[i].AsOfBlock(realAnchors).Ok?)
          && (forall i :: 0 <= i < |atts| ==> least.value <= atts[i].AsOfBlock(realAnchors).value)
          && (exists i :: 0 <= i < |atts| && atts[i].AsOfBlock(realAnchors) == Ok(least.value)))
  }

  /** `input_lag_blocks` for a stored witness. */
  function Lag(w: InputFreshnessWitness, height: U64, enforce: bool, realAnchors: bool): Result<U64> {
    match WitnessAsOf(w, height, enforce, realAnchors)
    case Err(e) => Err(e)
    case Ok(asOf) => Ok(SatSub(height, asOf))
  }

  /** The lag of one source at `height`. */
  function SourceLag(att: InputAttestation, height: U64, realAnchors: bool): U64
    requires att.AsOfBlock(realAnchors).Ok?
  {
    var asOf := att.AsOfBlock(realAnchors).value;
    if height <= asOf then 0 else height - asOf
  }

  /** There is a source, and every source answers. */
  ghost predicate AllAnswer(atts: seq<InputAttestation>, height: U64, enforce: bool, realAnchors: bool) {
    |atts| > 0 && forall i :: 0 <= i < |atts| ==> Answers(atts[i], height, enforce, realAnchors)
  }

  /** The lag is answered exactly when there is a source and every source
      answers, and it is then the largest of the sources' lags. */
  lemma LagIsLargestSourceLag(w: InputFreshnessWitness, height: U64, enforce: bool, realAnchors: bool)
    ensures var r := Lag(w, height, enforce, realAnchors);
      && (r.Ok? <==> AllAnswer(w.attestations, height, enforce, realAnchors))
      && (r.Ok? ==>
            && (forall i :: 0 <= i < |w.attestations| ==> SourceLag(w.attestations[i], height, realAnchors) <= r.value)
            && (exists i :: 0 <= i < |w.attestations| && SourceLag(w.attestations[i], height, realAnchors) == r.value))
  {
    AsOfIsLeast(w.attestations, height, enforce, realAnchors);
  }

  /** Under enforcement there is an answer exactly when there is a source and each
      is datable and no older than its signed seconds, at two seconds a block. */
  lemma LagInSeconds(w: InputFreshnessWitness, height: U64, realAnchors: bool)
    ensures Lag(w, height, true, realAnchors).Ok? <==>
      && |w.attestations| > 0
      && (forall i :: 0 <= i < |w.attestations| ==> w.attestations[i].AsOfBlock(realAnchors).Ok?)
      && (forall i :: 0 <= i < |w.attestations| ==>
            2 * (height - w.attestations[i].AsOfBlock(realAnchors).value) <= w.attestations[i].freshnessHorizonSecs)
  {
    LagIsLargestSourceLag(w, height, true, realAnchors);
  }

  /** One source list answers at least what another does, no fresher. */
  lemma MoreSourcesLagMore(xs: seq<InputAttestation>, ys: seq<InputAttestation>, height: U64, enforce: bool,
                           realAnchors: bool)
    requires |xs| > 0 && forall x :: x in xs ==> x in ys
    requires Lag(InputFreshnessWitness(ys), height, enforce, realAnchors).Ok?
    ensures Lag(InputFreshnessWitness(xs), height, enforce, realAnchors).Ok?
    ensures Lag(InputFreshnessWitness(xs), height, enforce, realAnchors).value
         <= Lag(InputFreshnessWitness(ys), height, enforce, realAnchors).value
  {
    LagIsLargestSourceLag(InputFreshnessWitness(ys), height, enforce, realAnchors);
    LagIsLargestSourceLag(InputFreshnessWitness(xs), height, enforce, realAnchors);
    forall i | 0 <= i < |xs|
      ensures Answers(xs[i], height, enforce, realAnchors)
      ensures SourceLag(xs[i], height, realAnchors)
           <= Lag(InputFreshnessWitness(ys), height, enforce, realAnchors).value
    {
      assert xs[i] in ys;
      var j :| 0 <= j < |ys| && ys[j] == xs[i];
    }
  }

  /** The answer depends neither on the order of the attestations nor on repetition. */
  lemma LagIgnoresOrder(xs: seq<InputAttestation>, ys: seq<InputAttestation>, height: U64, enforce: bool,
                        realAnchors: bool)
    requires forall x :: x in xs <==> x in ys
    ensures var r := Lag(InputFreshnessWitness(xs), height, enforce, realAnchors);
      var s := Lag(InputFreshnessWitness(ys), height, enforce, realAnchors);
      (r.Ok? <==> s.Ok?) && (r.Ok? ==> r.value == s.value)
  {
    assert |xs| > 0 ==> xs[0] in ys;
    assert |ys| > 0 ==> ys[0] in xs;
    if |xs| > 0 && |ys| > 0 {
      if Lag(InputFreshnessWitness(ys), height, enforce, realAnchors).Ok? {
        MoreSourcesLagMore(xs, ys, height, enforce, realAnchors);
      }
      if Lag(InputFreshnessWitness(xs), height, enforce, realAnchors).Ok? {
        MoreSourcesLagMore(ys, xs, height, enforce, realAnchors);
      }
    }
  }

  // ---------- the block anchors are free ----------

  /** The attestation with its block anchor set to `block`. */
  function Reanchored(att: InputAttestation, block: U64): InputAttestation {
    att.(anchorBlockHeight := Some(block))
  }

  /** Every block anchor replaced by `block`. */
  function Moved(atts: seq<InputAttestation>, block: U64): (r: seq<InputAttestation>)
    ensures |r| == |atts| && forall i :: 0 <= i < |r| ==> r[i] == Reanchored(atts[i], block)
  {
    seq(|atts|, i requires 0 <= i < |atts| => Reanchored(atts[i], block))
  }

  /** The attestations differ at most in their block anchor. */
  predicate SameButAnchor(x: InputAttestation, y: InputAttestation) {
    x == y.(anchorBlockHeight := x.anchorBlockHeight)
  }

  ghost predicate SameButAnchors(xs: seq<InputAttestation>, ys: seq<InputAttestation>) {
    |xs| == |ys| && forall i :: 0 <= i < |xs| ==> SameButAnchor(xs[i], ys[i])
  }

  lemma SameTails(xs: seq<InputAttestation>, ys: seq<InputAttestation>)
    requires |xs| > 0 && SameButAnchors(xs, ys)
    ensures SameButAnchor(xs[0], ys[0]) && SameButAnchors(xs[1..], ys[1..])
  {
    forall i | 0 <= i < |xs[1..]| ensures SameButAnchor(xs[1..][i], ys[1..][i]) {
      assert SameButAnchor(xs[i+1], ys[i+1]);
    }
  }

  lemma {:induction false} SameInserts(x: InputAttestation, y: InputAttestation, xs: seq<InputAttestation>,
                                       ys: seq<InputAttestation>)
    requires SameButAnchor(x, y) && SameButAnchors(xs, ys)
    ensures SameButAnchors(Insert(x, xs, DescriptorLeq), Insert(y, ys, DescriptorLeq))
  {
    if |xs| == 0 {
    } else {
      SameTails(xs, ys);
      assert DescriptorLeq(x, xs[0]) <==> DescriptorLeq(y, ys[0]);
      SameInserts(x, y, xs[1..], ys[1..]);
    }
  }

  lemma {:induction false} SameSorts(xs: seq<InputAttestation>, ys: seq<InputAttestation>)
    requires SameButAnchors(xs, ys)
    ensures SameButAnchors(Sort(xs, DescriptorLeq), Sort(ys, DescriptorLeq))
  {
    if |xs| == 0 {
    } else {
      SameTails(xs, ys);
      SameSorts(xs[1..], ys[1..]);
      SameInserts(xs[0], ys[0], Sort(xs[1..], DescriptorLeq), Sort(ys[1..], DescriptorLeq));
    }
  }

  /** Block anchors leave no trace in the manifest. */
  lemma SameButAnchorsSameManifest(xs: seq<InputAttestation>, ys: seq<InputAttestation>)
    requires SameButAnchors(xs, ys)
    ensures ManifestText(xs) == ManifestText(ys)
  {
    SameSorts(xs, ys);
    var x, y := Sort(xs, DescriptorLeq), Sort(ys, DescriptorLeq);
    forall i | 0 <= i < |x| ensures SourceOf(x[i]) == SourceOf(y[i]) {
      assert SameButAnchor(x[i], y[i]);
    }
    assert SortedSources(xs) == SortedSources(ys);
  }

  /** Moving the anchors leaves the manifest as it was. */
  lemma MovedKeepsManifest(atts: seq<InputAttestation>, block: U64)
    ensures ManifestText(Moved(atts, block)) == ManifestText(atts)
  {
    SameButAnchorsSameManifest(Moved(atts, block), atts);
  }

  /** Enforcement is off or no source's signed horizon is shorter than `lag`. */
  ghost predicate HorizonsAllow(atts: seq<InputAttestation>, lag: U64, enforce: bool) {
    enforce ==> forall i :: 0 <= i < |atts| ==> 2 * lag <= atts[i].freshnessHorizonSecs
  }

  /** With every anchor moved to `block`, the witness answers `lag` at height
      `block + lag` exactly when the horizons allow it. */
  lemma MovedLag(atts: seq<InputAttestation>, block: U64, lag: U64, enforce: bool, realAnchors: bool)
    requires |atts| > 0 && block + lag < TWO_64
    ensures Lag(InputFreshnessWitness(Moved(atts, block)), block + lag, enforce, realAnchors) == Ok(lag)
       <==> HorizonsAllow(atts, lag, enforce)
  {
    var ms := Moved(atts, block);
    forall i | 0 <= i < |ms|
      ensures ms[i].AsOfBlock(realAnchors) == Ok(block) && SourceLag(ms[i], block + lag, realAnchors) == lag
      ensures Answers(ms[i], block + lag, enforce, realAnchors)
         <==> (enforce ==> 2 * lag <= atts[i].freshnessHorizonSecs)
    {
      assert ms[i] == Reanchored(atts[i], block);
    }
    LagIsLargestSourceLag(InputFreshnessWitness(ms), block + lag, enforce, realAnchors);
  }

  ghost predicate AllAdmitted(crypto: Crypto, pin: Option<Hash32>, atts: seq<InputAttestation>) {
    forall i :: 0 <= i < |atts| ==> Admitted(crypto, pin, atts[i])
  }

  lemma StaysAdmitted(crypto: Crypto, pin: Option<Hash32>, x: InputAttestation, y: InputAttestation)
    requires SameButAnchor(x, y) && Admitted(crypto, pin, y)
    ensures Admitted(crypto, pin, x)
  {
    AnchorHeightIsUnsigned(crypto, y, x.anchorBlockHeight);
  }

  /** Nor in any signature. */
  lemma SameButAnchorsStayAdmitted(crypto: Crypto, pin: Option<Hash32>, xs: seq<InputAttestation>,
                                   ys: seq<InputAttestation>)
    requires SameButAnchors(xs, ys) && AllAdmitted(crypto, pin, ys)
    ensures AllAdmitted(crypto, pin, xs)
  {
    forall i | 0 <= i < |xs| ensures Admitted(crypto, pin, xs[i]) {
      StaysAdmitted(crypto, pin, xs[i], ys[i]);
    }
  }

  /** Source `k` anchored at `block` and every other one at `height`. */
  function OneMoved(atts: seq<InputAttestation>, k: nat, block: U64, height: U64): (r: seq<InputAttestation>)
    ensures |r| == |atts|
    ensures forall i :: 0 <= i < |r| ==> r[i] == Reanchored(atts[i], if i == k then block else height)
  {
    seq(|atts|, i requires 0 <= i < |atts| => Reanchored(atts[i], if i == k then block else height))
  }

  /** One source set back answers for the whole witness, if its own horizon allows. */
  lemma OneMovedLag(atts: seq<InputAttestation>, k: nat, block: U64, height: U64, enforce: bool, realAnchors: bool)
    requires k < |atts| && block <= height
    requires enforce ==> 2 * (height - block) <= atts[k].freshnessHorizonSecs
    ensures Lag(InputFreshnessWitness(OneMoved(atts, k, block, height)), height, enforce, realAnchors)
         == Ok(height - block)
  {
    var ms := OneMoved(atts, k, block, height);
    forall i | 0 <= i < |ms|
      ensures Answers(ms[i], height, enforce, realAnchors)
      ensures SourceLag(ms[i], height, realAnchors) == if i == k then height - block else 0
    {
      assert ms[i] == Reanchored(atts[i], if i == k then block else height);
    }
    assert SourceLag(ms[k], height, realAnchors) == height - block;
    LagIsLargestSourceLag(InputFreshnessWitness(ms), height, enforce, realAnchors);
  }

  /** `lag` is at most the height and, under enforcement, at most the longest horizon. */
  ghost predicate SomeHorizonAllows(atts: seq<InputAttestation>, height: U64, lag: U64, enforce: bool) {
    lag <= height && (enforce ==> exists i :: 0 <= i < |atts| && 2 * lag <= atts[i].freshnessHorizonSecs)
  }

  /** Setting block anchors alone can make the witness answer `lag`. */
  ghost predicate AnchorsReach(atts: seq<InputAttestation>, height: U64, lag: U64, enforce: bool, realAnchors: bool) {
    exists ms: seq<InputAttestation> :: SameButAnchors(ms, atts) && AnswersLag(ms, height, lag, enforce, realAnchors)
  }

  predicate AnswersLag(ms: seq<InputAttestation>, height: U64, lag: U64, enforce: bool, realAnchors: bool) {
    Lag(InputFreshnessWitness(ms), height, enforce, realAnchors) == Ok(lag)
  }

  lemma ReachedLagIsAllowed(atts: seq<InputAttestation>, ms: seq<InputAttestation>, height: U64, lag: U64,
                            enforce: bool, realAnchors: bool)
    requires SameButAnchors(ms, atts) && AnswersLag(ms, height, lag, enforce, realAnchors)
    ensures SomeHorizonAllows(atts, height, lag, enforce)
  {
    LagIsLargestSourceLag(InputFreshnessWitness(ms), height, enforce, realAnchors);
    var i :| 0 <= i < |ms| && SourceLag(ms[i], height, realAnchors) == lag;
    assert SameButAnchor(ms[i], atts[i]) && Answers(ms[i], height, enforce, realAnchors);
  }

  /** The lags the unsigned block anchors can give one source list are exactly
      those up to the height and, under enforcement, the longest horizon. */
  lemma AnchorsReachIff(atts: seq<InputAttestation>, height: U64, lag: U64, enforce: bool, realAnchors: bool)
    requires |atts| > 0
    ensures AnchorsReach(atts, height, lag, enforce, realAnchors) <==> SomeHorizonAllows(atts, height, lag, enforce)
  {
    if SomeHorizonAllows(atts, height, lag, enforce) {
      var k: nat :| k < |atts| && (enforce ==> 2 * lag <= atts[k].freshnessHorizonSecs);
      OneMovedLag(atts, k, height - lag, height, enforce, realAnchors);
      var ms := OneMoved(atts, k, height - lag, height);
      assert SameButAnchors(ms, atts) && AnswersLag(ms, height, lag, enforce, realAnchors);
    }
    if AnchorsReach(atts, height, lag, enforce, realAnchors) {
      var ms: seq<InputAttestation> :| SameButAnchors(ms, atts) && AnswersLag(ms, height, lag, enforce, realAnchors);
      ReachedLagIsAllowed(atts, ms, height, lag, enforce, realAnchors);
    }
  }

  /** Neither the manifest nor any signature fixes the lag: whatever the block
      anchors of admitted attestations, they stay admitted under the same
      manifest, and the lags they can give are exactly those up to the height
      and, under enforcement, the longest horizon. */
  lemma LagIsNotFixedByRoot(crypto: Crypto, pin: Option<Hash32>, atts: seq<InputAttestation>, height: U64, lag: U64,
                            enforce: bool, realAnchors: bool)
    requires |atts| > 0 && AllAdmitted(crypto, pin, atts)
    ensures forall ms: seq<InputAttestation> :: SameButAnchors(ms, atts) ==>
      ManifestText(ms) == ManifestText(atts) && AllAdmitted(crypto, pin, ms)
    ensures AnchorsReach(atts, height, lag, enforce, realAnchors) <==> SomeHorizonAllows(atts, height, lag, enforce)
  {
    forall ms: seq<InputAttestation> | SameButAnchors(ms, atts)
      ensures ManifestText(ms) == ManifestText(atts) && AllAdmitted(crypto, pin, ms)
    {
      SameButAnchorsSameManifest(ms, atts);
      SameButAnchorsStayAdmitted(crypto, pin, ms, atts);
    }
    AnchorsReachIff(atts, height, lag, enforce, realAnchors);
  }

  // ---------- the registry ----------

  type Witnesses = map<Hash32, InputFreshnessWitness>

  /** What a presentation adds: the witness it builds, under its manifest root. */
  function Accepted(crypto: Crypto, pin: Option<Hash32>,
                    blocks: seq<Result<InputAttestation>>): Option<(Hash32, InputFreshnessWitness)> {
    match FromPocBlocks(crypto, pin, blocks)
    case Err(_) => None
    case Ok(w) => Some((ManifestRoot(crypto, w), w))
  }

  class BaseOracleInputOracle {
    const expectedPubkey: Option<Hash32>
    const enforceHorizon: bool
    var witnesses: Witnesses

    constructor (pin: Option<Hash32>, enforce: bool)
      ensures expectedPubkey == pin && enforceHorizon == enforce && witnesses == map[]
    {
      expectedPubkey := pin;
      enforceHorizon := enforce;
      witnesses := map[];
    }

    method PresentWitness(crypto: Crypto, blocks: seq<Result<InputAttestation>>) returns (r: Result<Hash32>)
      modifies this
      ensures witnesses == Put(old(witnesses), Accepted(crypto, expectedPubkey, blocks))
      ensures match FromPocBlocks(crypto, expectedPubkey, blocks)
        case Err(e) => r == Err(e)
        case Ok(w) => r == Ok(ManifestRoot(crypto, w))
      ensures r.Ok? ==> witnesses == old(witnesses)[r.value := FromPocBlocks(crypto, expectedPubkey, blocks).value]
      ensures r.Err? ==> witnesses == old(witnesses)
    {
      var built := BuildWitness(crypto, expectedPubkey, blocks);
      if built.Err? {
        return Err(built.error);
      }
      var root := ManifestRoot(crypto, built.value);
      witnesses := witnesses[root := built.value];
      r := Ok(root);
    }

    method InputLagBlocks(root: Hash32, height: U64, realAnchors: bool) returns (r: Result<U64>)
      ensures r == LagOf(witnesses, enforceHorizon, root, height, realAnchors)
    {
      if root !in witnesses {
        return Err(OracleUnavailable);
      }
      var asOf := ComputeAsOf(witnesses[root], height, enforceHorizon, realAnchors);
      if asOf.Err? {
        return Err(asOf.error);
      }
      r := Ok(SatSub(height, asOf.value));
    }
  }

  function LagOf(witnesses: Witnesses, enforce: bool, root: Hash32, height: U64, realAnchors: bool): Result<U64> {
    if root in witnesses then Lag(witnesses[root], height, enforce, realAnchors) else Err(OracleUnavailable)
  }

  /** A root that was never presented is unknown, and a witness without sources
      has no date. */
  lemma UnknownIsUnavailable(witnesses: Witnesses, enforce: bool, root: Hash32, height: U64, realAnchors: bool)
    ensures root !in witnesses || |witnesses[root].attestations| == 0 ==>
      LagOf(witnesses, enforce, root, height, realAnchors) == Err(OracleUnavailable)
    ensures root in witnesses ==>
      LagOf(witnesses, enforce, root, height, realAnchors) == Lag(witnesses[root], height, enforce, realAnchors)
  {}

  /** What each call of a run adds. */
  function Log(crypto: Crypto, pin: Option<Hash32>,
               calls: seq<seq<Result<InputAttestation>>>): (r: seq<Option<(Hash32, InputFreshnessWitness)>>)
    ensures |r| == |calls| && forall i :: 0 <= i < |r| ==> r[i] == Accepted(crypto, pin, calls[i])
  {
    seq(|calls|, i requires 0 <= i < |calls| => Accepted(crypto, pin, calls[i]))
  }

  /** The registry holds a witness under a root exactly when some call of the
      run was accepted under it, and then the last such one: nonempty,
      recomputing to its key, and made only of admitted attestations. */
  lemma RegistryHoldsSoundWitnesses(crypto: Crypto, pin: Option<Hash32>, calls: seq<seq<Result<InputAttestation>>>,
                                    root: Hash32)
    ensures var items := Log(crypto, pin, calls);
      root in Fold(items) <==> exists k :: 0 <= k < |items| && AcceptedUnder(items[k], root)
    ensures var items := Log(crypto, pin, calls);
      root in Fold(items) ==> exists k :: LastAccepted(items, k, root, Fold(items)[root])
    ensures var items := Log(crypto, pin, calls);
      root in Fold(items) ==> SoundWitness(crypto, pin, root, Fold(items)[root])
  {
    var items := Log(crypto, pin, calls);
    FoldHoldsLastAccepted(items, root);
    if root in Fold(items) {
      var w := Fold(items)[root];
      var k :| LastAccepted(items, k, root, w);
      LoggedIsSound(crypto, pin, calls, k, root, w);
    }
  }

  ghost predicate SoundWitness(crypto: Crypto, pin: Option<Hash32>, root: Hash32, w: InputFreshnessWitness) {
    && |w.attestations| > 0
    && crypto.sha256(Utf8(ManifestText(w.attestations))) == root
    && AllAdmitted(crypto, pin, w.attestations)
  }

  lemma LoggedIsSound(crypto: Crypto, pin: Option<Hash32>, calls: seq<seq<Result<InputAttestation>>>, k: nat,
                      root: Hash32, w: InputFreshnessWitness)
    requires k < |calls| && Log(crypto, pin, calls)[k] == Some((root, w))
    ensures SoundWitness(crypto, pin, root, w)
  {
    var blocks := calls[k];
    assert Accepted(crypto, pin, blocks) == Some((root, w));
    CheckedBlocks(crypto, pin, blocks);
  }
}
