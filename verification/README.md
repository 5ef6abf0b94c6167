# Settlement freshness, verified

A Dafny model of a settlement-gating library: a worker signs a commitment to
the context of a computation, and payment clears only while that context is
fresh. The model covers

- the canonical JSON printer whose text is hashed and signed, and the messages
  built on it (`Json`, `Readability`, `Canonical`, `KeyOrder`);
- the timestamp parser and its closed-form Gregorian day count (`Calendar`);
- the byte preimages that are hashed and signed (`Context`, `Commitment`,
  `SignedBacking`, `AgentMemory`);
- the triple anchor of block height, enclave time and Drand round (`Anchor`);
- the stateful oracles, registries of verified evidence (`ModelRegistry`,
  `InputFreshness`, `PriceFreshness`, over `Registries`);
- the gates (`Settlement`, `Perishability`, `Revival`, `DarkPool`, `Renewal`);
- backing sets, plain and signed, and their derivation trees (`Backing`,
  `SignedBacking`, over `OldestWins`);
- the retrying orchestrator and its demo agents (`Orchestrator`,
  `DemoPipeline`).

`Types`, `Sequences`, `Text`, `Bounds`, `Traversal` and `Hashing` hold the
machine integers, the stable sort, the encodings and the loop schemes the
others share.

The main theorem is perishability: with fixed oracle contents a commitment
clears exactly on one interval of settlement heights, computed from the
commitment, the lineage and the input witness, so once it has stopped clearing
under a forward clock it never clears again
(`Perishability.ClearsOnOneInterval`, `Perishability.Perishes`). The same holds
while the registries take in more, unless a prefix of the held lineage is
adopted again or the committed witness is swapped under its root
(`Revival.RevivalNeedsReplay`).

## Reading the model

- SHA-256 and Ed25519 verification are the two functions of `Types.Crypto`, a
  parameter of every statement. Nothing assumes a global absence of
  collisions, which no hash has: injectivity is proved of the preimage bytes, and
  a theorem that needs more names the two preimages that must not collide.
- A signing key is a public key with a signing function; `SigningKey.Signs`
  says that its signatures verify. A publisher that signs only certain
  snapshots is `ModelRegistry.SignsOneHistory`.
- Code that changes state step by step is a class or a method with a loop,
  proved equal to a function of its inputs or of its old state. The lemmas are
  about those functions, and so hold of the methods.
- `u64`, `u128` and `u32` are subset types; the parser's `i64` fields have at most
  four characters and stay far from its bounds. Saturating
  operations saturate, `as u64` and `as u32` truncate, Rust `/` truncates
  toward zero, and a plain `+` or `*` wraps, as in a build without overflow
  checks (src/anchor.rs:73, src/anchor.rs:120-123, src/anchor.rs:142-143). A
  build with overflow checks stops there instead. The anchor theorems that
  need exact arithmetic ask for `InRange` and `TolerancesInRange`.
- The `real-anchors` feature is a boolean parameter.

## Where the code and the obvious statement part ways

- The lineage, manifest and source-set orders are independent of presentation
  exactly when tied entries agree, since each sort key leaves something out:
  `NewLineageIgnoresOrderIff`, `ManifestIgnoresOrderIff`,
  `PreimageIgnoresOrderIff`. The comment at src/input_freshness.rs:201-204
  promises independence outright.
- The block anchor of an attestation is called signed at
  src/input_freshness.rs:145, but it is in neither the signed message nor the
  manifest. So under one root the lag can be any value up to the height and,
  where horizons are enforced, up to the longest of them:
  `LagIsNotFixedByRoot`.
- No registry checks recency. Replaying an older lineage or a witness with
  moved anchors can make a lapsed commitment clear again:
  `ReplayedPrefixClearsIff`, `MovedWitnessClearsIff`. Under an honest committee
  nothing else can: `RevivalNeedsReplay`. Replaying an older price cannot:
  `OlderPriceNeverClears`.
- Union is left-biased on ties, so it commutes exactly when tied entries are
  equal (`OldestWins.MergeCommutesIff`), and leaf order is hidden exactly when
  entries tied for a source's earliest attestation agree
  (`LeafOrderHidesIff`).
- The gate distributes over union exactly when shared sources carry one class
  (`GateDistributesIff`). A union never turns a stale verdict fresh exactly when
  each entry is matched in it by one of its class that is no younger
  (`UnionNeverFreshensIff`).
- Signed sets are merged before trust is checked, so projection commutes with
  union exactly when no untrusted older entry shadows a trusted one:
  `ProjectionCommutesIff`.
- Length prefixes of signed entries are 32 bits wide, so the signed preimage is
  injective exactly as long as ids or classes stay below 2^32 bytes:
  `PreimagesDifferIff`.
- A set read from outside may hold an entry under a key other than its source
  id. Union inserts the right operand's entries under their own ids, which
  rebuilds exactly the operands keyed by id: `RekeyedIff`. The projection
  conserves its count exactly when the trusted entries have distinct ids:
  `ProjectionConservesIff`.
- Renewal compares roots only, so an outcome goes back exactly when the root
  returns to the committed one: `OutcomesOnlyAgeIff`.
- Wall times and tolerances are right exactly while they fit u64:
  `WallTimesExactIff`, `TolerancesExactIff`.
- Key order is by Unicode scalar value. It differs from UTF-16 order exactly
  when the first differing characters are one in U+E000..U+FFFF and one beyond
  the Basic Multilingual Plane: `OrdersAgreeIff`.
- The timestamp parser checks no field against the calendar. It rolls days and
  months over exactly for month fields up to 14: `AcceptedTextMeans`.

## Model

| member | source | states |
|---|---|---|
| `Readability.UnescapeRoundTrip` | src/canonical.rs:56-58 | a reader that undoes RFC 8259 section 7 escapes recovers every string from its escaped text |
| `Readability.EscapeHidesControls` | src/canonical.rs:56-58 | escaped text holds no control character |
| `Readability.EscapeForms` | src/canonical.rs:56-58 | exactly the quote, the backslash and the controls are escaped: the first two and five controls by two characters, the other controls by four lower-case hex digits |
| `Readability.EscapeAppends` | src/canonical.rs:56-58 | a string is escaped character by character |
| `Readability.ScalarTexts` | src/canonical.rs:74-75 | the texts of null, the booleans, numbers and strings |
| `Readability.ArrayText` | src/canonical.rs:64-73 | an array is its items' texts, in order, joined by commas between brackets |
| `Readability.ObjectText` | src/canonical.rs:48-63 | an object is its members, quoted key, colon and value, joined by commas between braces |
| `Text.DecimalForm` | src/canonical.rs:74-75 | an integer is a minus sign exactly when negative, then its magnitude in base ten without padding |
| `Text.HexReads` | src/input_freshness.rs:125 | hex writes two lower-case digits a byte, the high half first |
| `Text.StrLeqMeans` | src/canonical.rs:50 | keys compare by their first differing character, a prefix first |
| `Text.CodeReads` | src/canonical.rs:43 | each character reads back from the payload bits of its UTF-8 code |
| `Text.CodeForm` | src/canonical.rs:43 | codes are the shortest, with lead and continuation bytes in their ranges |
| `Text.IntegersRead` | src/context.rs:32-39 | each integer has its fixed width and reads back least significant byte first |
| `Readability.EscapeCut` | src/canonical.rs:56-58 | two escaped strings, each followed by a closing quote and any text, that agree are the same string followed by the same text |
| `Readability.NumberCut` | src/canonical.rs:74-75 | a number is told from whatever may follow it in a document |
| `Readability.PrintCut` | src/canonical.rs:46-77 | equal compact texts, each continued by any text that may follow a value, come from equal values with equal continuations |
| `Readability.PrintInjective` | src/canonical.rs:46-77 | compact text determines the value, members in their printed order |
| `Canonical.NormalDecidesSame` | src/canonical.rs:47-63 | two documents sort to the same normal form exactly when they are equal up to member order at every depth |
| `Canonical.CanonicalJsonDecidesSame` | src/canonical.rs:34-77 | two documents have the same canonical text exactly when they are equal up to object member order at every depth |
| `Canonical.InsertionOrderNeverShows` | src/canonical.rs:31-33 | permuting an object's members never changes its canonical text |
| `Canonical.KeysAscend` | src/canonical.rs:48-62 | an object is printed with exactly its own members, values normalised, in increasing key order |
| `Canonical.ContinuationsAreCut` | src/canonical.rs:46-77 | no canonical text inside a larger document can be split into a value and a rest another way |
| `Canonical.SmallerKeyFirst` | src/canonical.rs:49-62 | of two members the one with the smaller key is printed first, in the exact compact form, even when inserted last |
| `Canonical.TextHoldsMembers` | src/canonical.rs:34-63 | every document with an object's canonical text holds exactly that object's members, each value under its own key |
| `Canonical.SortedKeysLookUp` | src/canonical.rs:49-60 | the sorted keys, each looked up in the map, are the sorted members |
| `Canonical.WriteCanonical` | src/canonical.rs:46-77 | appends exactly the canonical text to whatever the buffer held |
| `Canonical.WriteObject` | src/canonical.rs:48-63 | the loop over sorted keys writes the object's canonical text |
| `Canonical.WriteArray` | src/canonical.rs:64-73 | the loop over items writes the array's canonical text, items in order |
| `Canonical.WriteCanonicalJson` | src/canonical.rs:34-38 | a fresh buffer ends up holding the canonical text |
| `Canonical.CanonicalHashBinds` | src/canonical.rs:40-44 | unless the two texts collide, equal hashes mean equal documents up to member order, and conversely |
| `KeyOrder.ByteOrderIsScalarOrder` | src/canonical.rs:15-17 | comparing the UTF-8 bytes of two keys is comparing their scalar values |
| `KeyOrder.OrdersAgreeIff` | src/canonical.rs:15-19 | UTF-16 and scalar order agree on two keys exactly when their first differing characters are not one in U+E000..U+FFFF and one beyond the Basic Multilingual Plane |
| `KeyOrder.OrdersAgreeOnBasicPlane` | src/canonical.rs:15-18 | in particular they agree on all Basic Multilingual Plane keys |
| `KeyOrder.OrdersDifferBeyond` | src/canonical.rs:15-19 | a pair that meets the condition of `OrdersAgreeIff`: the two orders put it in opposite places |
| `Calendar.ClosedFormCountsDays` | src/input_freshness.rs:330-336 | for every year, month and day number the closed form equals counting days year by year and month by month from 1970-01-01 |
| `Calendar.SecondsOrderTimes` | src/input_freshness.rs:338 | seconds order civil times exactly as their fields do, and determine them |
| `Calendar.CivilOf` | src/input_freshness.rs:330-338 | walking years and months from the epoch gives a valid time whose seconds are the ones started from |
| `Calendar.ParseReadsIsoText` | src/input_freshness.rs:317-340 | parsing the fixed form of a valid time returns its counted seconds from 1970 on and the malformed-timestamp error before |
| `Calendar.ParseOrdersTimestamps` | src/input_freshness.rs:312-340 | from 1970 on, parsed timestamps compare exactly as the times they name |
| `Calendar.TimestampRoundTrip` | src/input_freshness.rs:312-340 | every Unix second through year 9999 survives formatting and parsing, whatever the milliseconds |
| `Calendar.FieldParsesIff` | src/input_freshness.rs:322-326 | exactly digits after at most one sign parse |
| `Calendar.SignedField` | src/input_freshness.rs:322-326 | only a minus negates |
| `Calendar.DigitsParseIff` | src/input_freshness.rs:322-326 | digits are read in base ten |
| `Calendar.ClosedFormRollsIff` | src/input_freshness.rs:330-336 | for every day and every month field a text can hold, the closed form counts the rolled-over date exactly when the month is at most 14; from 15 on it runs ahead |
| `Calendar.AcceptedIff` | src/input_freshness.rs:317-340 | a text is accepted exactly when its six fields parse and do not give a time before 1970; separators and what follows are free |
| `Calendar.AcceptedTextMeans` | src/input_freshness.rs:317-340 | an accepted text is read as its rolled-over instant exactly when the month is at most 14, and as an instant with its own fields exactly when they are a valid date and time |
| `Anchor.ObservedAnchorPasses` | src/anchor.rs:91-145 | clocks floored from one instant pass both legs whatever the other tolerances are, once one Drand round of skew is allowed |
| `Anchor.ZeroSkewNeedsARoundBoundary` | src/anchor.rs:138-145 | with no Drand skew allowed such an anchor passes exactly when the instant is within the TEE tolerance of its round |
| `Anchor.ExactLegs` | src/anchor.rs:108-145 | without overflow the two legs are the plain comparisons of wall times against the tolerances |
| `Anchor.DrandTimeExactIff` | src/anchor.rs:72-74 | the Drand wall time is genesis + 30 round exactly while that fits u64 |
| `Anchor.BlockTimeExactIff` | src/anchor.rs:120-121 | the block wall time is genesis + 2 height exactly while that fits u64 |
| `Anchor.TeeTimeExactIff` | src/anchor.rs:87-89 | the TEE wall time is the whole seconds of the timestamp exactly while they fit u64 |
| `Anchor.WallTimesExactIff` | src/anchor.rs:72-121 | all three wall times are right exactly on anchors in range |
| `Anchor.WallTimesPastRange` | src/anchor.rs:72-121 | past the range the product saturates before the sum wraps, and TEE seconds keep their low 64 bits |
| `Anchor.TeeToleranceExactIff` | src/anchor.rs:142-143 | the TEE tolerance is tee_skew + 30 drand_skew exactly while that fits u64 |
| `Anchor.BlockToleranceExactIff` | src/anchor.rs:122-123 | the block tolerance is 2 block_skew + 30 drand_skew exactly while that fits u64 |
| `Anchor.TolerancesPastRange` | src/anchor.rs:122-143 | past that the products saturate and the sums wrap |
| `Anchor.TolerancesExactIff` | src/anchor.rs:122-143 | both tolerances are right exactly on thresholds in range |
| `Anchor.UncheckedGapBounded` | src/anchor.rs:95-130 | both legs together bound the TEE-to-block gap that no leg checks by tee_skew + 2 block_skew + 60 drand_skew |
| `Anchor.ClocksAdvanceTogether` | src/anchor.rs:132-145 | between two passing anchors TEE seconds and Drand rounds advance together within twice the tolerance |
| `Anchor.NearbyObservationsAgree` | src/anchor.rs:76-83 | anchors observed at instants within every tolerance never diverge, and their skew is symmetric |
| `Anchor.SkewMeans` | src/anchor.rs:76-83 | the skew is the distance on each clock of its own |
| `Anchor.DivergesIff` | src/anchor.rs:150-160 | two anchors diverge exactly when some clock is further apart than its own tolerance, the TEE clock in whole seconds |
| `Anchor.FarFutureRoundWraps` | src/anchor.rs:72-74 | a round beyond the range of `DrandTimeExactIff`: it reads as a time before Drand genesis |
| `Context.SamplingParamsInjective` | src/context.rs:32-39 | the parameter bytes determine all four parameters |
| `Context.AttentionCut` | src/context.rs:67-74 | the one-or-two-byte attention field is cut off unambiguously, so no tag collides with another or with an enumerated kernel |
| `Context.PreimageInjective` | src/context.rs:172-194 | equal preimages mean equal contexts, field by field |
| `Context.PreimageLayout` | src/context.rs:172-194 | every field sits at its own offset: fixed ones up to the attention field at 148, and fixed distances from it on |
| `Context.ComputeMerkleRoot` | src/context.rs:172-194 | feeding the fields one after another hashes exactly that preimage |
| `Commitment.DigestPreimageInjective` | src/commitment.rs:49-57 | the digest preimage determines the root, all three clocks and the output |
| `Commitment.DigestLayout` | src/commitment.rs:49-57 | the five signed fields at their offsets, 96 bytes in all |
| `Commitment.CommitContext` | src/mock.rs:46-79 | the committer hashes field by field, signs and fills in exactly the specified commitment |
| `Commitment.CommitVerifies` | src/mock.rs:101-117 | a working key's commitment verifies, binds the context it was made for, and carries its root, clocks, output, key and vendor |
| `Commitment.VerifyMeans` | src/mock.rs:101-127 | the signature over the commitment's own digest is checked first, then that the vendor is the software one, each with its own error |
| `Commitment.OnlyTheCommittedContextBinds` | src/mock.rs:163-169 | barring a collision of the two preimages, the only context that binds is the committed one |
| `Commitment.DigestBinds` | src/commitment.rs:49-57 | barring a collision, equal signing digests mean the same root, anchor and output |
| `ModelRegistry.NewLineageSorts` | src/model_registry.rs:55-58 | a permutation, ascending by epoch, that keeps the given order within each epoch number |
| `ModelRegistry.NewLineageIgnoresOrderIff` | src/model_registry.rs:55-58 | the lineage does not depend on input order exactly when entries sharing an epoch number are identical |
| `ModelRegistry.SigningMessageInjective` | src/model_registry.rs:61-85 | the signed text determines the whole lineage |
| `ModelRegistry.SnapshotReadsBack` | src/model_registry.rs:61-85 | any reader of the signed text finds the epochs in lineage order, with weights, number and activation block under their own names |
| `ModelRegistry.QuorumModelOracle.constructor` | src/model_registry.rs:127-133 | registers the set of given keys and holds no lineage |
| `ModelRegistry.QuorumModelOracle.PresentLineage` | src/model_registry.rs:140-169 | adopts exactly when M is positive and at least M distinct registered publishers have a valid signature on this lineage; a refused call changes nothing |
| `ModelRegistry.QuorumModelOracle.ModelEpochDistance` | src/model_registry.rs:178-194 | answers the distance function on the held lineage, with its three error cases |
| `ModelRegistry.OnlyTheSetOfSignaturesMatters` | src/model_registry.rs:149-166 | reordering or repeating signatures never changes whether there is a quorum |
| `ModelRegistry.HasQuorumIff` | src/model_registry.rs:145-166 | there is a quorum exactly when M is positive and some M registered publishers each have a signature verifying on this lineage's canonical text |
| `ModelRegistry.HeldHasQuorum` | src/model_registry.rs:140-169 | after any run the held lineage was presented with a quorum on exactly it, and no later call had one |
| `ModelRegistry.HeldIff` | src/model_registry.rs:140-169 | a run holds a lineage exactly when some call had a quorum |
| `ModelRegistry.NoForks` | src/model_registry.rs:135-169 | if 2M > N + f and all but f publishers sign one growing history each, two lineages with quorums are prefix-comparable |
| `ModelRegistry.ForksPastTheBound` | src/model_registry.rs:135-169 | the bound is tight: with 2M <= N + f any two lineages can both reach a quorum while all but f publishers sign one history each |
| `ModelRegistry.RunsNeverFork` | src/model_registry.rs:135-169 | under the same bound, the lineages held after any two runs are prefix-comparable |
| `ModelRegistry.PositionOf` | src/model_registry.rs:88-90 | the first position with these weights, or none if there is none |
| `ModelRegistry.CanonicalPositionAt` | src/model_registry.rs:92-101 | the last position active at the height, or none if none is |
| `ModelRegistry.DistanceWithin` | src/model_registry.rs:178-194 | the distance is within a limit exactly when the model is known, some epoch is active, and none more than the limit past it is |
| `ModelRegistry.DistanceErrsIff` | src/model_registry.rs:183-191 | there is no distance exactly without a lineage, for an unknown model, or before any activation; all read as unavailable |
| `ModelRegistry.DistanceGrowsWithHeight` | src/model_registry.rs:178-194 | the distance never shrinks with the height and stays below the lineage length |
| `ModelRegistry.DistanceGrowsWithLineage` | src/model_registry.rs:178-194 | appending epochs never lowers the distance |
| `ModelRegistry.DistanceCountsIff` | src/model_registry.rs:178-194 | the distance counts the active epochs after the committed one exactly when every epoch from there to the canonical one is active |
| `ModelRegistry.DistanceCountsActivations` | src/model_registry.rs:178-194 | when activations never decrease along the lineage, the distance counts the active epochs after the committed one |
| `InputFreshness.SigningMessageInjective` | src/input_freshness.rs:114-132 | the signed message determines every field but the block anchor, the signature and the key |
| `InputFreshness.SigningMessageIsJson` | src/input_freshness.rs:114-132 | the hand-assembled message is the compact text of the JSON document with those six members in that order |
| `InputFreshness.SignatureMeans` | src/input_freshness.rs:136-143 | verification succeeds exactly when there is a key and its signature on the JSON text of the six fields, and fails with invalid signature otherwise |
| `InputFreshness.AnchorHeightIsUnsigned` | src/input_freshness.rs:119-143 | changing the block anchor never changes whether the signature verifies |
| `InputFreshness.DerivedBlockBracketsInstant` | src/input_freshness.rs:149-162 | a derived block b satisfies genesis + 2b <= t < genesis + 2b + 2, and an instant before genesis is refused |
| `InputFreshness.BuildWitness` | src/input_freshness.rs:177-199 | the loop with early return builds exactly the specified witness or error |
| `InputFreshness.CheckBlockAdmits` | src/input_freshness.rs:185-197 | a block passes exactly when it decodes, is tagged f_i, was signed and matches the pin; otherwise the first failing check's error comes back |
| `InputFreshness.WitnessBuiltIff` | src/input_freshness.rs:174-199 | a witness is built exactly from a nonempty list whose blocks all decode, are tagged f_i, were signed by their key and match the pin, in order; otherwise the first failing block's error comes back |
| `InputFreshness.ManifestTextInjective` | src/input_freshness.rs:212-223 | equal manifest texts list the same sources in the same order |
| `InputFreshness.ManifestCommitsToSources` | src/input_freshness.rs:205-224 | equal manifest texts mean equal multisets of (endpoint, payload hash, source id) |
| `InputFreshness.ManifestReadsBack` | src/input_freshness.rs:205-224 | any reader of the manifest finds the sources in sorted order, with endpoint, payload hash and source id under their own names |
| `InputFreshness.ManifestSorted` | src/input_freshness.rs:207-211 | sources are listed by endpoint, then by payload hash |
| `InputFreshness.ManifestRootIsHash` | src/input_freshness.rs:222-223 | the root is the hash of the manifest text |
| `InputFreshness.ManifestRootCommits` | src/input_freshness.rs:201-224 | barring a collision of the two texts, one root means one multiset of sources |
| `InputFreshness.ManifestIgnoresOrderIff` | src/input_freshness.rs:201-224 | the manifest is independent of presentation order exactly when sources tied on endpoint and payload hash agree on source id |
| `InputFreshness.ComputeAsOf` | src/input_freshness.rs:230-244 | the loop returns the specified as-of block or the first error met |
| `InputFreshness.AsOfIsLeast` | src/input_freshness.rs:226-244 | all sources answer exactly when there is no error, and the block is then the least of theirs |
| `InputFreshness.DatableIff` | src/input_freshness.rs:149-162 | which attestations have a date, which block it is, and which error otherwise |
| `InputFreshness.FirstSilentErrs` | src/input_freshness.rs:230-244 | the error is that of the first source that has no date or is past its horizon |
| `InputFreshness.LagIsLargestSourceLag` | src/input_freshness.rs:226-244 | the lag is answered exactly when there is a source and each is datable and, if enforced, within its horizon; it is then the largest source lag |
| `InputFreshness.LagInSeconds` | src/input_freshness.rs:234-240 | under enforcement there is an answer exactly when there is a source and each is datable with twice its lag within its signed seconds |
| `InputFreshness.MoreSourcesLagMore` | src/input_freshness.rs:226-244 | dropping sources never makes a witness staler or unanswerable |
| `InputFreshness.LagIgnoresOrder` | src/input_freshness.rs:226-244 | the answer does not depend on the order or repetition of attestations |
| `InputFreshness.SameButAnchorsSameManifest` | src/input_freshness.rs:205-224 | attestation lists that differ only in block anchors have the same manifest text |
| `InputFreshness.AnchorsReachIff` | src/input_freshness.rs:226-244 | setting block anchors alone makes a nonempty list answer a lag exactly when it is at most the height and, under enforcement, at most the longest horizon |
| `InputFreshness.MovedLag` | src/input_freshness.rs:226-244 | with every anchor at one block, the lag from that block is answered exactly when enforcement is off or no horizon is shorter |
| `InputFreshness.MovedKeepsManifest` | src/input_freshness.rs:205-224 | moving every block anchor leaves the manifest text as it was |
| `InputFreshness.LagIsNotFixedByRoot` | src/input_freshness.rs:119-132 | for any nonempty admitted list and every setting, whatever the block anchors, the list stays admitted under the same manifest, and the lags they can give are exactly those up to the height and, under enforcement, the longest horizon |
| `InputFreshness.BaseOracleInputOracle.constructor` | src/input_freshness.rs:261-274 | pins the key, sets horizon enforcement and holds no witness |
| `InputFreshness.BaseOracleInputOracle.PresentWitness` | src/input_freshness.rs:279-284 | adds the built witness under its manifest root and returns the root, or returns the error and changes nothing |
| `InputFreshness.BaseOracleInputOracle.InputLagBlocks` | src/input_freshness.rs:298-309 | answers the lag of the witness stored under the root, or unavailable |
| `InputFreshness.UnknownIsUnavailable` | src/input_freshness.rs:303-306 | a root never presented is unavailable |
| `InputFreshness.RegistryHoldsSoundWitnesses` | src/input_freshness.rs:276-284 | after any run a root is held exactly when accepted, with the last accepted witness, which is nonempty, hashes to its key and holds only attestations signed by their key under the pin |
| `Settlement.SettlementGate.VerifyAndSettle` | src/mock.rs:153-216 | integrity errors abort; otherwise the checks give exactly the specified verdict on the oracles' current contents |
| `Settlement.SettlementGate.CheckAxes` | src/mock.rs:171-207 | the four checks, pushed one by one, give exactly the failed axes in order |
| `Settlement.SettlementGate.IsSettlementEligible` | src/settle.rs:34-45 | true exactly when the full check clears, with the same errors |
| `Perishability.RejectionNamesFailedAxes` | src/mock.rs:171-215 | a rejection lists exactly the failed axes, each spelled out in heights, positions and seconds, once and in checking order |
| `Perishability.ModelAxis` | src/model_registry.rs:178-194 | the model axis passes exactly when some epoch is active and none more than max_fm past the model's first position is |
| `Perishability.InputAxis` | src/input_freshness.rs:298-309 | the input axis passes exactly when the witness is known and each source is datable, at most max_fi blocks old and within its enforced seconds |
| `Perishability.SettleAborts` | src/mock.rs:160-169 | settlement aborts on a bad signature first, then on the vendor, then on an unbound context, each with its own error, and answers otherwise |
| `Perishability.ModelWindow` | src/model_registry.rs:178-194 | the model axis passes exactly from the earliest activation until an epoch more than max_fm positions ahead activates |
| `Perishability.InputWindow` | src/input_freshness.rs:298-309 | the input axis passes exactly until the earliest source deadline, as-of + min(max_fi, horizon / 2) |
| `Perishability.ClearMeansNoAxisFails` | src/mock.rs:153-216 | the gate clears exactly when integrity holds and every axis passes |
| `Perishability.ClearsOnOneInterval` | src/mock.rs:153-216 | a commitment clears exactly when it is eligible and the height lies between the computed opening and closing heights |
| `Perishability.Perishes` | src/mock.rs:153-216 | along a clock that never runs back, a clear followed by any other verdict is never followed by a clear |
| `Perishability.CommittedWorkPerishes` | src/mock.rs:46-79 | a working key's commitment clears for its own context exactly on that interval, within its settlement window |
| `Revival.PerishesWhileRegistriesGrow` | src/mock.rs:153-216 | while the lineage only grows and the committed witness stays in place, under a forward clock a lapse is final whatever else the registries take in |
| `Revival.RevivalNeedsReplay` | src/model_registry.rs:140-169 | over every run of both registries with an honest committee and a forward clock, a commitment that clears, lapses and clears again does so only if in between a prefix of the held lineage was adopted again or the committed witness was swapped |
| `Revival.ReplayedPrefixClearsIff` | src/model_registry.rs:164-169 | adopting again a prefix of the held lineage makes a commitment whose other axes pass clear exactly when that prefix knows its model, has an active epoch and outdates it no more than allowed |
| `Revival.MovedWitnessReplaces` | src/input_freshness.rs:279-284 | presenting admitted attestations again with moved block anchors is accepted and replaces the witness under the same root |
| `Revival.AdmittedIsAccepted` | src/input_freshness.rs:177-199 | a nonempty list of admitted attestations is accepted under its own manifest root |
| `Revival.MovedWitnessClearsIff` | src/input_freshness.rs:279-284 | with the anchors moved to a block, a commitment whose other axes pass clears exactly when the lag from that block is within the threshold and, under enforcement, every horizon |
| `Perishability.ClearIsBacked` | src/mock.rs:153-216 | over all runs of both registries, a clear rests on a valid signature, a quorum on a lineage containing the model, and admitted attestations recomputing to the committed manifest root |
| `OldestWins.InOrderEnumerates` | src/backing.rs:158-161 | iteration lists every key once, in increasing order |
| `OldestWins.PutAllMerges` | src/backing.rs:140-146 | inserting entries one by one, in any order and with any repetition, merges the map they build |
| `OldestWins.RekeyedIff` | src/backing.rs:140-146 | inserting a map's entries under their own ids rebuilds it exactly when every entry sits under its own id |
| `OldestWins.KeyedIsRebuilt` | src/backing.rs:140-146 | such a map is rebuilt whatever order its entries are inserted in |
| `OldestWins.GatheredCounts` | src/backing.rs:113-134 | building a map loses no entry exactly when the ids are distinct |
| `OldestWins.MergeAssociates` | src/backing.rs:136-146 | union is associative |
| `OldestWins.MergeIdempotent` | src/backing.rs:136-146 | union with itself changes nothing |
| `OldestWins.MergeCommutesIff` | src/backing.rs:122-146 | union commutes exactly when entries tied under a key are equal |
| `OldestWins.MergeManyKeepsFirstOldest` | src/backing.rs:122-146 | a union of many holds, under each key present in any, the first entry with the earliest attestation |
| `Backing.BackingSet.FromEntries` | src/backing.rs:113-120 | the set built by inserting the entries in order |
| `Backing.BackingSet.Insert` | src/backing.rs:122-134 | keeps the held entry when it is no younger, else replaces it |
| `Backing.BackingSet.UnionWith` | src/backing.rs:136-146 | a fresh set holding the key-by-key union with the other set's entries under their own ids, which is the plain union when those are its keys; the operands are untouched |
| `Backing.BackingSet.GateAt` | src/backing.rs:185-213 | the loop collects exactly the specified findings |
| `Backing.GateReportsStaleSources` | src/backing.rs:179-213 | Fresh exactly when no source is overdue for its class limit or else the default; otherwise exactly the overdue sources, in key order, each with entry, age and limit |
| `Backing.AgeMeans` | src/backing.rs:99-104 | the age is the seconds since the attestation, none for one in the future |
| `Backing.StaleIsOverdue` | src/backing.rs:188-205 | a listed class is held to its own limit, any other to the default, and without a default an entry is stale |
| `Backing.StaleSourcesGrow` | src/backing.rs:102-104 | time only adds stale sources |
| `Backing.GateDistributesIff` | src/backing.rs:125-146 | the gate distributes over union for every policy and instant exactly when shared sources carry one class |
| `Backing.UnionNeverFreshensIff` | src/backing.rs:125-146 | a union is Fresh exactly when both operands are, under every policy at every instant, exactly when each entry of either is matched in the union by one of its class that is no younger |
| `Backing.UnionNeverFreshens` | src/backing.rs:136-146 | so it is whenever shared sources carry one class |
| `Backing.TargetedReattestation` | src/backing.rs:76-86 | re-attesting the listed sources makes the gate Fresh exactly when every finding had a limit |
| `Backing.BackingIsUnionOfLeaves` | src/backing.rs:136-146 | a derivation tree's backing is the union of its leaves, whatever the bracketing |
| `Backing.DerivationsStayKeyed` | src/backing.rs:136-146 | over leaves keyed by source id every stage of a derivation is so keyed |
| `Backing.UnresettableClock` | src/backing.rs:1-11 | a derived output carries exactly its leaves' sources, each with the first of the earliest attestations in the tree |
| `Backing.LeafOrderHidesIff` | src/backing.rs:122-146 | the order of the leaves never shows exactly when entries tied for a source's earliest attestation agree |
| `Backing.FromListSplits` | src/backing.rs:113-146 | building from a concatenation is the union of building from the parts |
| `Backing.MaxAgeIsLargest` | src/backing.rs:163-169 | the reported age is the largest in the set, and none for an empty one |
| `Backing.MaxAgeOfUnion` | src/backing.rs:163-169 | the age of a union is the larger of the operands' ages, at every instant |
| `Backing.BoundaryReportsOldestLeaf` | src/backing.rs:171-177 | what crosses the boundary is the largest age over all leaves of the derivation |
| `SignedBacking.DigestPreimageInjective` | src/backing.rs:257-266 | with both ids, or both classes, below 2^32 bytes the preimage determines id, time, class and content hash |
| `SignedBacking.DigestLayout` | src/backing.rs:257-266 | four bytes of length, the id, the time, four bytes of length, the class and the content hash, in that order |
| `SignedBacking.PreimagesDifferIff` | src/backing.rs:257-266 | entries with ids of at most n bytes and classes of at most m never share a preimage exactly when n or m is below 2^32 |
| `SignedBacking.ComputeSigningDigest` | src/backing.rs:257-266 | feeding the fields one after another hashes exactly that preimage |
| `SignedBacking.WrappedPrefixCollides` | src/backing.rs:259-262 | a pair past that bound in both fields: different entries sharing a preimage |
| `SignedBacking.SignedIsTrustedIff` | src/backing.rs:269-297 | an entry signed by a working key is trusted exactly when its key is |
| `SignedBacking.SignatureCoversEveryField` | src/backing.rs:233-266 | barring a collision, two entries with both ids or both classes below 2^32 bytes share a digest exactly when they are equal in every signed field |
| `SignedBacking.SignedBackingSet.Insert` | src/backing.rs:347-356 | the same oldest-wins rule on the inner attestation time |
| `SignedBacking.SignedBackingSet.UnionWith` | src/backing.rs:358-365 | a fresh set holding the key-by-key union with the other set's entries under their own ids, which is the plain union when those are its keys; the operands are untouched |
| `SignedBacking.SignedBackingSet.IntoVerified` | src/backing.rs:388-399 | a fresh plain set built from exactly the trusted entries, which is the set of them by key when keys are ids, and the number of the others |
| `SignedBacking.ProjectionConservesIff` | src/backing.rs:382-399 | the projection and the rejected count add up to the size of the signed set exactly when the trusted entries carry distinct ids |
| `SignedBacking.ProjectionConserves` | src/backing.rs:382-399 | for sets keyed by source id, verified and rejected add up to the size of the signed set |
| `SignedBacking.ProjectionCommutesIff` | src/backing.rs:358-399 | projecting a union is the union of the projections exactly when no untrusted older entry shadows a trusted one |
| `SignedBacking.TrustedSetsProjectTogether` | src/backing.rs:358-399 | when all entries of both sets are trusted, projection commutes with union and nothing is rejected |
| `SignedBacking.ProjectedWasSigned` | src/backing.rs:388-399 | whatever the keys, the projection holds exactly the ids of trusted entries, each with the oldest entry a trusted key validly signed for it |
| `SignedBacking.VerifiedWasSigned` | src/backing.rs:293-297 | of a keyed set a source is verified exactly when a trusted key validly signed its entry, and the entry is kept as signed |
| `PriceFreshness.SigningMessageInjective` | src/price_freshness.rs:45-53 | the signed message determines market, price and instant |
| `PriceFreshness.SignedFieldsByName` | src/price_freshness.rs:45-53 | any reader of the signed text finds the domain tag, market, price and instant under their own names |
| `PriceFreshness.AdmittedIff` | src/price_freshness.rs:57-90 | a price is admitted exactly when a key is given, its signature verifies on the canonical text of the fields, and it is the pinned one if there is a pin |
| `PriceFreshness.PriceFreshnessOracle.PresentPrice` | src/price_freshness.rs:82-93 | stores the price under its market when it verifies and matches the pin; otherwise errs and changes nothing |
| `PriceFreshness.PriceFreshnessOracle.PriceAgeSecs` | src/price_freshness.rs:98-101 | the saturating age of the stored price, or unavailable |
| `PriceFreshness.PriceAgeMeans` | src/price_freshness.rs:98-101 | the age is the seconds since the price's instant, none for one in the future, and unavailable without a price |
| `PriceFreshness.RegistryHoldsAdmittedPrices` | src/price_freshness.rs:82-93 | after any run a market has a price exactly when one was accepted, namely the last, signed by its key under the pin and stored under its own market |
| `DarkPool.ViolationsAreFailedAxes` | src/darkpool.rs:163-194 | a party's violations are exactly the axes it fails, spelled out as clock tolerance, price deadline and quote window, each once, in checking order |
| `DarkPool.IntegrityMeans` | src/darkpool.rs:149-161 | which integrity error a party gives: signature first, then vendor, then binding, and none exactly when all three hold |
| `DarkPool.VerifyPartyContexts` | src/darkpool.rs:139-206 | the loop with early abort gives exactly the specified verdict |
| `DarkPool.CheckPartyFully` | src/darkpool.rs:148-194 | one party: integrity first, and exactly its failed axes when that holds |
| `DarkPool.AbortNamesFirstBroken` | src/darkpool.rs:98-108 | it aborts exactly when some party fails integrity, naming the first such party and its error even after stale ones |
| `DarkPool.FailingPositions` | src/darkpool.rs:194-205 | the rejected list is, in order, exactly the parties that are not fresh, each with its role and violations |
| `DarkPool.JudgeSplits` | src/darkpool.rs:139-206 | the verdict over two groups of parties is determined by the verdicts over each |
| `DarkPool.TradesClearOnOneInterval` | src/darkpool.rs:163-205 | no parties clear, and any others exactly when all are sound with known markets and now is from the newest quote to the earlier of the oldest quote's and oldest price's deadlines |
| `DarkPool.ClearAnchorsAgree` | src/darkpool.rs:165-174 | in a cleared trade every party's TEE seconds are within tolerance of its Drand round's emission time |
| `DarkPool.ClearIsBacked` | src/darkpool.rs:129-205 | over every run of price presentations, a clear rests on every party's valid signature and disclosed context and on the last admitted price for its own market |
| `DarkPool.OlderPriceNeverClears` | src/price_freshness.rs:82-93 | replacing a held price by one as of an earlier instant never lets a trade clear that did not clear before |
| `Renewal.EvaluateMeans` | src/renewal.rs:62-83 | still valid exactly under the committed root, and otherwise protected exactly from the commit to the end of the settlement window |
| `Renewal.OutcomeAgesIff` | src/renewal.rs:62-83 | between two moments after the commit, whatever the root did, the outcome stays or ages exactly when the root has not returned to the committed one |
| `Renewal.OutcomesOnlyAgeIff` | src/renewal.rs:62-83 | along any run with a forward clock, outcomes never go back exactly when no step returns to the committed root |
| `Renewal.OutcomesOnlyAge` | src/renewal.rs:1-12 | along every run of fresh-root bumps and forward ticks no step returns, so outcomes move only from StillValid to Protected to Expired |
| `Renewal.ReuseRevives` | src/renewal.rs:62-71 | a run that does return: an expired commitment is StillValid again |
| `Renewal.ProtectedIff` | src/renewal.rs:72-83 | protection holds exactly when the root differs and the gate's settlement-window test passes |
| `Renewal.ExpiredNeverClears` | src/renewal.rs:72-83 | once expired, no later point of the run lets the gate clear the commitment |
| `Renewal.BumpsNeverInterrupt` | src/renewal.rs:1-12 | between two clear verdicts of a run every verdict is clear and the commitment not expired, however often the root is bumped |
| `AgentMemory.RecordListInjective` | examples/memory_freshness.rs:60-66 | a list of any number of length-prefixed records is read back in one way |
| `AgentMemory.RecordLayout` | examples/memory_freshness.rs:61-65 | a record is eight bytes of length, the id and the hash of the content |
| `AgentMemory.PreimageAscends` | examples/memory_freshness.rs:58-65 | records are hashed in increasing order of id |
| `AgentMemory.PreimageCommitsToRecords` | examples/memory_freshness.rs:49-67 | equal preimages mean equal multisets of (id, content hash) |
| `AgentMemory.PreimageIgnoresOrderIff` | examples/memory_freshness.rs:46-67 | the preimage is independent of presentation order exactly when records sharing an id are identical |
| `AgentMemory.ComputeSourceSetRoot` | examples/memory_freshness.rs:49-67 | sorting and feeding record by record hashes exactly that preimage |
| `AgentMemory.StillValidIffSourcesUnchanged` | examples/memory_freshness.rs:99-105 | barring a collision, a memory reads StillValid exactly while the current sources are the attested records in some order |
| `AgentMemory.StillValidIffContentsUnchanged` | examples/memory_freshness.rs:46-67 | barring collisions, it reads StillValid exactly while the same ids carry the same contents |
| `AgentMemory.ReadMeans` | examples/memory_freshness.rs:99-116 | and otherwise protected exactly while the window lasts |
| `Orchestrator.RunAgentWithRetry` | examples/multi_agent_orchestrator.rs:433-467 | the loop's answer, memory, appended events and requested delays are those of the specified attempts |
| `Orchestrator.RetryBehaviour` | examples/multi_agent_orchestrator.rs:433-467 | the answer is that of the last attempt made, after (Started Retrying)* Started within the budget with one delay per retry; the fallback error appears exactly when the budget is zero |
| `Orchestrator.TraceAt` | examples/multi_agent_orchestrator.rs:442-464 | where each started and retried event of an agent stands |
| `Orchestrator.DelayAt` | examples/multi_agent_orchestrator.rs:457 | the delay after attempt k is the base doubled k - 1 times, modulo 2^64 |
| `Orchestrator.TotalBackoff` | examples/multi_agent_orchestrator.rs:457-458 | while the largest delay fits u64, r retries request base * (2^r - 1) in all |
| `Orchestrator.TotalBackoffIff` | examples/multi_agent_orchestrator.rs:457-458 | r retries request base * (2^r - 1) in all exactly when the largest delay fits u64 |
| `Orchestrator.NextAnchorAt` | examples/multi_agent_orchestrator.rs:399-403 | stepping the anchor i times gives start + (i, 2e9 i, 0) |
| `Orchestrator.AnchorsAdvance` | examples/multi_agent_orchestrator.rs:399-403 | without overflow step i is anchored i blocks and 2i seconds after the start, at the same round |
| `Orchestrator.ComputeChainHash` | examples/multi_agent_orchestrator.rs:514-521 | feeding the digests one by one hashes exactly the tagged concatenation |
| `Orchestrator.ChainCommitsToDigests` | examples/multi_agent_orchestrator.rs:514-521 | the concatenated digests determine how many steps there were and each digest, in order |
| `Orchestrator.DigestAt` | examples/multi_agent_orchestrator.rs:517-519 | digest i stands at its own 32 bytes |
| `Orchestrator.ChainHashBinds` | examples/multi_agent_orchestrator.rs:514-521 | barring a collision of the two chain preimages, equal chain hashes mean equally many steps with equal digests in order, and conversely |
| `Orchestrator.OutputHashBinds` | examples/multi_agent_orchestrator.rs:507-512 | barring a collision of the two tagged outputs, equal output hashes mean equal outputs |
| `Orchestrator.RunStep` | examples/multi_agent_orchestrator.rs:379-417 | one agent's attempts followed by its closing event, with memory and delays as specified |
| `Orchestrator.Run` | examples/multi_agent_orchestrator.rs:369-431 | either all agents are done, with one commitment per agent at its own anchor, the chain hash and the full trace; or the first agent not done fails with exactly the earlier commitments |
| `Orchestrator.CompletedReceipt` | examples/multi_agent_orchestrator.rs:420-430 | a completed run's receipt: one commitment per agent, the task id, the hash of the tag and exactly their digests, and the clocks advanced once per agent |
| `Orchestrator.FailedReceipt` | examples/multi_agent_orchestrator.rs:405-416 | a failed run names the agent and its error and hands over the commitments of the agents before it |
| `Orchestrator.ReceiptsBind` | examples/multi_agent_orchestrator.rs:420-430 | barring a collision, two completed runs get one chain hash exactly when their commitments have the same digests in order |
| `Orchestrator.EventsOfAgent` | examples/multi_agent_orchestrator.rs:379-398 | each agent's attempts and its success stand together in the run's events |
| `Orchestrator.RunCommitmentsVerify` | examples/multi_agent_orchestrator.rs:391-397 | with a working key every commitment of a run verifies, binds its step and carries its output hash and anchor |
| `Orchestrator.DebugBytesInjective` | examples/multi_agent_orchestrator.rs:496 | the rendered byte list is read back in one way |
| `Orchestrator.DebugItemsText` | examples/multi_agent_orchestrator.rs:496 | the items in decimal, separated by a comma and a space |
| `Orchestrator.StepRootDetermines` | examples/multi_agent_orchestrator.rs:474-499 | barring collisions of the two agent and the two input labels, a step's context determines the agent and the whole task |
| `Orchestrator.StepRootSpelled` | examples/multi_agent_orchestrator.rs:474-505 | the context spelled out: agent, task and input in words, fixed labels elsewhere, and the task id as the seed |
| `DemoPipeline.OracleAnswersIff` | examples/multi_agent_orchestrator.rs:200-227 | an oracle that times out a number of times answers exactly when the budget is larger and it is not down for good |
| `DemoPipeline.DemoCompletesIff` | examples/multi_agent_orchestrator.rs:369-431 | the three-agent pipeline completes exactly when the oracle answers, and settles the payload for whether the price exceeds the threshold |

## Left out

- `src/clients/*`: HTTP, JSON-RPC and the system clock are input and output only.
- `from_poc_json` (src/input_freshness.rs:60-112): a block enters as what decoding it gave, an attestation or an error.
- SHA-256, Ed25519, hex and serde internals are parameters or assumed codecs.
- JSON numbers with a fraction or an exponent are tokens of number characters; how a float is rendered is not modelled.
- `Readability.UnescapeRoundTrip`: the reader is for escapes up to U+00FF, the only ones the printer emits; surrogate pairs are not read.
- `MockCanonicalStateOracle` answers from fixed maps; the gate is modelled over the two real oracles composed by axis.
- The threshold constructors (src/freshness.rs:61-90) are constants; every statement is for all thresholds.
- Attestation payload bytes and hardware vendors: the mock verifier only compares the vendor tag.
- f_c, real TEE attestation and the omission of backing entries are not enforced by the code.
- `Orchestrator.Run`: an agent is a function of its attempt number, the task, the shared memory and the anchor, which stands for its own mutable state during one run; state kept from one run to the next enters as the agent's parameters, and the error value stands for its `{:?}` text in outcomes and events.
- `Orchestrator.RunAgentWithRetry`: a delay is recorded when requested; no time passes. The power and the product in the backoff wrap, as in a build without overflow checks.
- `Anchor.ExactLegs`: asks that no clock or tolerance leaves u64, as do the bounds built on it; `WallTimesExactIff` and `TolerancesExactIff` say when that is.
- `ModelRegistry.QuorumModelOracle.PresentLineage`: lineages, witnesses and backing maps are values inside the objects' fields, so their sharing in memory is not modelled.
- `Settlement.SettlementGate.VerifyAndSettle`: the verifier is the software one of src/mock.rs, and the oracles are read, not changed, during a call.
- Long loop bodies are split into helper methods (`WriteMember`, `WriteItem`, `TraverseInOrder`, `InsertAll`, `CheckAxes`, `ModelStale`, `InputStale`, `CheckPartyFully`, `CheckParty`, `CheckIntegrity`, `FeedAfterAttention`, `FeedRecord`, `FeedDigests`, `CommitStep`, `Seal`), which the source writes inline.
- `Backing.BackingIsUnionOfLeaves`: derivations are stated over plain unions, which the union method computes on sets keyed by source id; a mis-keyed set read from outside is covered one union at a time, by `BackingSet.UnionWith`.
- `SignedBacking.ProjectionCommutesIff`: the same, for `SignedBackingSet.UnionWith` and `IntoVerified`.
- `SignedBackingSet::from_entries`, `len`, `is_empty` and `iter` would only add easy members.
- `attest` and the printing in `read` (examples/memory_freshness.rs:78-116): signing repeats the committer, printing is output.
- The published test vectors (src/canonical.rs:87-115) are single inputs; the statements are for all documents.
- Demo `main` functions, console observers, cost measurement and vector generation.
