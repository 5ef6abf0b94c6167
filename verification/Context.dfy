/** The execution-context root (src/context.rs): a flat byte preimage that
    determines every field it was built from. */
module Context {
  import opened Types
  import opened Sequences
  import opened Text
  import opened Hashing

  /** `f32` fields are their 32-bit patterns. */
  datatype SamplingParams = SamplingParams(temperature: U32, topK: U32, topP: U32, seed: U64)
  {
    function ToBytes(): (r: seq<Byte>)
      ensures |r| == 20
    {
      LE32(temperature) + LE32(topK) + LE32(topP) + LE64(seed)
    }
  }

  datatype AttentionImpl = FlashAttention2 | Sdpa | FlexAttention | Other(tag: Byte)
  {
    /** One byte for an enumerated kernel, the marker 0x80 and the tag otherwise. */
    function Encoding(): (r: seq<Byte>)
      ensures |r| > 0 && |r| == if r[0] == 0x80 then 2 else 1
    {
      match this
      case FlashAttention2 => [1]
      case Sdpa => [2]
      case FlexAttention => [3]
      case Other(tag) => [0x80, tag]
    }
  }

  datatype PrecisionMode = Bf16 | Fp16 | Fp32 | Fp8
  {
    function Discriminant(): Byte {
      match this
      case Bf16 => 1
      case Fp16 => 2
      case Fp32 => 3
      case Fp8 => 4
    }
  }

  datatype InferenceConfig = InferenceConfig(maxTokens: U32, stopSequencesRoot: Hash32, penaltyParamsRoot: Hash32)
  {
    function ToBytes(): (r: seq<Byte>)
      ensures |r| == 68
    {
      LE32(maxTokens) + stopSequencesRoot + penaltyParamsRoot
    }
  }

  datatype ExecutionContextRoot = ExecutionContextRoot(
    weightsHash: Hash32,
    tokenizerHash: Hash32,
    systemPromptHash: Hash32,
    samplingParams: SamplingParams,
    runtimeVersion: Hash32,
    attentionImplId: AttentionImpl,
    precisionMode: PrecisionMode,
    inferenceConfig: InferenceConfig,
    inputManifestRoot: Hash32,
    kvCacheRoot: Option<Hash32>)
  {
    /** The bytes fed to the hasher, in protocol order. */
    function Preimage(): seq<Byte> {
      weightsHash + (tokenizerHash + (systemPromptHash + (samplingParams.ToBytes() + (runtimeVersion
      + (attentionImplId.Encoding() + AfterAttention())))))
    }

    function AfterAttention(): seq<Byte> {
      [precisionMode.Discriminant()] + (inferenceConfig.ToBytes() + (inputManifestRoot + CacheTail()))
    }

    function CacheTail(): seq<Byte> {
      match kvCacheRoot
      case Some(root) => [1] + root
      case None => [0]
    }

    function MerkleRoot(crypto: Crypto): Hash32 {
      crypto.sha256(Preimage())
    }
  }

  /** `merkle_root`: the fields are fed to the hasher one after another. */
  method ComputeMerkleRoot(crypto: Crypto, root: ExecutionContextRoot) returns (digest: Hash32)
    ensures digest == root.MerkleRoot(crypto)
  {
    var h := new Hasher();
    ghost var tail := root.attentionImplId.Encoding() + root.AfterAttention();
    h.Update(root.weightsHash);
    assert h.fed == root.weightsHash;
    Append(h.fed, root.tokenizerHash,
           root.systemPromptHash + (root.samplingParams.ToBytes() + (root.runtimeVersion + tail)));
    h.Update(root.tokenizerHash);
    Append(h.fed, root.systemPromptHash, root.samplingParams.ToBytes() + (root.runtimeVersion + tail));
    h.Update(root.systemPromptHash);
    Append(h.fed, root.samplingParams.ToBytes(), root.runtimeVersion + tail);
    h.Update(root.samplingParams.ToBytes());
    Append(h.fed, root.runtimeVersion, tail);
    h.Update(root.runtimeVersion);
    Append(h.fed, root.attentionImplId.Encoding(), root.AfterAttention());
    h.Update(root.attentionImplId.Encoding());
    FeedAfterAttention(root, h);
    digest := h.Finalize(crypto);
  }

  method FeedAfterAttention(root: ExecutionContextRoot, h: Hasher)
    modifies h
    ensures h.fed == old(h.fed) + root.AfterAttention()
  {
    var precision := [root.precisionMode.Discriminant()];
    Append(h.fed, precision, root.inferenceConfig.ToBytes() + (root.inputManifestRoot + root.CacheTail()));
    h.Update(precision);
    Append(h.fed, root.inferenceConfig.ToBytes(), root.inputManifestRoot + root.CacheTail());
    h.Update(root.inferenceConfig.ToBytes());
    Append(h.fed, root.inputManifestRoot, root.CacheTail());
    h.Update(root.inputManifestRoot);
    match root.kvCacheRoot {
      case Some(cache) =>
        Append(h.fed, [1], cache);
        h.Update([1]);
        h.Update(cache);
      case None =>
        h.Update([0]);
    }
  }

  lemma SamplingParamsInjective(a: SamplingParams, b: SamplingParams)
    requires a.ToBytes() == b.ToBytes()
    ensures a == b
  {
    Split(LE32(a.temperature) + LE32(a.topK) + LE32(a.topP), LE64(a.seed),
          LE32(b.temperature) + LE32(b.topK) + LE32(b.topP), LE64(b.seed));
    Split(LE32(a.temperature) + LE32(a.topK), LE32(a.topP), LE32(b.temperature) + LE32(b.topK), LE32(b.topP));
    Split(LE32(a.temperature), LE32(a.topK), LE32(b.temperature), LE32(b.topK));
    LE32Injective(a.temperature, b.temperature);
    LE32Injective(a.topK, b.topK);
    LE32Injective(a.topP, b.topP);
    LE64Injective(a.seed, b.seed);
  }

  lemma InferenceConfigInjective(a: InferenceConfig, b: InferenceConfig)
    requires a.ToBytes() == b.ToBytes()
    ensures a == b
  {
    Split(LE32(a.maxTokens) + a.stopSequencesRoot, a.penaltyParamsRoot,
          LE32(b.maxTokens) + b.stopSequencesRoot, b.penaltyParamsRoot);
    Split(LE32(a.maxTokens), a.stopSequencesRoot, LE32(b.maxTokens), b.stopSequencesRoot);
    LE32Injective(a.maxTokens, b.maxTokens);
  }

  /** The first byte of the attention field tells how long it is. */
  lemma AttentionCut(a: AttentionImpl, b: AttentionImpl, s: seq<Byte>, t: seq<Byte>)
    requires a.Encoding() + s == b.Encoding() + t
    ensures a == b && s == t
  {
    var p, q := a.Encoding(), b.Encoding();
    assert p[0] == (p + s)[0] && q[0] == (q + t)[0];
    Split(p, s, q, t);
  }

  lemma CacheTailInjective(a: ExecutionContextRoot, b: ExecutionContextRoot)
    requires a.CacheTail() == b.CacheTail()
    ensures a.kvCacheRoot == b.kvCacheRoot
  {
    assert a.CacheTail()[0] == b.CacheTail()[0];
    if a.kvCacheRoot.Some? {
      Cancel([1], a.kvCacheRoot.value, b.kvCacheRoot.value);
    }
  }

  lemma AfterAttentionInjective(a: ExecutionContextRoot, b: ExecutionContextRoot)
    requires a.AfterAttention() == b.AfterAttention()
    ensures a.precisionMode == b.precisionMode && a.inferenceConfig == b.inferenceConfig
    ensures a.inputManifestRoot == b.inputManifestRoot && a.kvCacheRoot == b.kvCacheRoot
  {
    Split([a.precisionMode.Discriminant()], a.inferenceConfig.ToBytes() + (a.inputManifestRoot + a.CacheTail()),
          [b.precisionMode.Discriminant()], b.inferenceConfig.ToBytes() + (b.inputManifestRoot + b.CacheTail()));
    assert a.precisionMode.Discriminant() == b.precisionMode.Discriminant();
    Split(a.inferenceConfig.ToBytes(), a.inputManifestRoot + a.CacheTail(),
          b.inferenceConfig.ToBytes(), b.inputManifestRoot + b.CacheTail());
    InferenceConfigInjective(a.inferenceConfig, b.inferenceConfig);
    Split(a.inputManifestRoot, a.CacheTail(), b.inputManifestRoot, b.CacheTail());
    CacheTailInjective(a, b);
  }

  /** Equal preimages come from contexts equal in every field, although the
      attention field takes one or two bytes and the cache tail 1 or 33. */
  lemma PreimageInjective(a: ExecutionContextRoot, b: ExecutionContextRoot)
    requires a.Preimage() == b.Preimage()
    ensures a == b
  {
    var a4, b4 := a.attentionImplId.Encoding() + a.AfterAttention(), b.attentionImplId.Encoding() + b.AfterAttention();
    var a3 := a.samplingParams.ToBytes() + (a.runtimeVersion + a4);
    var b3 := b.samplingParams.ToBytes() + (b.runtimeVersion + b4);
    Split(a.weightsHash, a.tokenizerHash + (a.systemPromptHash + a3),
          b.weightsHash, b.tokenizerHash + (b.systemPromptHash + b3));
    Split(a.tokenizerHash, a.systemPromptHash + a3, b.tokenizerHash, b.systemPromptHash + b3);
    Split(a.systemPromptHash, a3, b.systemPromptHash, b3);
    Split(a.samplingParams.ToBytes(), a.runtimeVersion + a4, b.samplingParams.ToBytes(), b.runtimeVersion + b4);
    Split(a.runtimeVersion, a4, b.runtimeVersion, b4);
    SamplingParamsInjective(a.samplingParams, b.samplingParams);
    AttentionCut(a.attentionImplId, b.attentionImplId, a.AfterAttention(), b.AfterAttention());
    AfterAttentionInjective(a, b);
  }

  // ---------- which field sits where ----------

  lemma SamplingLayout(s: SamplingParams)
    ensures var p := s.ToBytes();
      At(p, 0, LE32(s.temperature)) && At(p, 4, LE32(s.topK)) && At(p, 8, LE32(s.topP)) && At(p, 12, LE64(s.seed))
  {}

  lemma ConfigLayout(c: InferenceConfig)
    ensures var p := c.ToBytes();
      At(p, 0, LE32(c.maxTokens)) && At(p, 4, c.stopSequencesRoot) && At(p, 36, c.penaltyParamsRoot)
  {}

  /** Part of a field stands at the same place within the whole. */
  lemma AtWithin(p: seq<Byte>, from: nat, field: seq<Byte>, sub: nat, part: seq<Byte>)
    requires At(p, from, field) && At(field, sub, part)
    ensures At(p, from + sub, part)
  {
    forall j | 0 <= j < |part| ensures p[from + sub + j] == part[j] {
      assert p[from..from+|field|][sub + j] == field[sub + j] == field[sub..sub+|part|][j];
    }
    assert p[from+sub..from+sub+|part|] == part;
  }

  /** Everything after the attention field, by its distance from that field. */
  predicate TailAt(r: ExecutionContextRoot, p: seq<Byte>, o: nat) {
    && At(p, o, [match r.precisionMode case Bf16 => 1 case Fp16 => 2 case Fp32 => 3 case Fp8 => 4])
    && At(p, o + 1, LE32(r.inferenceConfig.maxTokens))
    && At(p, o + 5, r.inferenceConfig.stopSequencesRoot)
    && At(p, o + 37, r.inferenceConfig.penaltyParamsRoot)
    && At(p, o + 69, r.inputManifestRoot)
    && (r.kvCacheRoot.None? ==> At(p, o + 101, [0]) && |p| == o + 102)
    && (r.kvCacheRoot.Some? ==> At(p, o + 101, [1] + r.kvCacheRoot.value) && |p| == o + 134)
  }

  lemma TailLayout(r: ExecutionContextRoot)
    ensures TailAt(r, r.AfterAttention(), 0)
  {
    var d, c, m, k := [r.precisionMode.Discriminant()], r.inferenceConfig.ToBytes(), r.inputManifestRoot, r.CacheTail();
    AtHead(d, c + (m + k));
    AtHead(c, m + k);
    AtHead(m, k);
    assert At(k, 0, k);
    AtTail(m, k, 0, k);
    AtTail(c, m + k, 0, m);
    AtTail(c, m + k, 32, k);
    AtTail(d, c + (m + k), 0, c);
    AtTail(d, c + (m + k), 68, m);
    AtTail(d, c + (m + k), 100, k);
    ConfigLayout(r.inferenceConfig);
    var p := d + (c + (m + k));
    AtWithin(p, 1, c, 0, LE32(r.inferenceConfig.maxTokens));
    AtWithin(p, 1, c, 4, r.inferenceConfig.stopSequencesRoot);
    AtWithin(p, 1, c, 36, r.inferenceConfig.penaltyParamsRoot);
  }

  lemma TailMoves(r: ExecutionContextRoot, a: seq<Byte>, rest: seq<Byte>, o: nat)
    requires TailAt(r, rest, o)
    ensures TailAt(r, a + rest, |a| + o)
  {
    AtTail(a, rest, o, [match r.precisionMode case Bf16 => 1 case Fp16 => 2 case Fp32 => 3 case Fp8 => 4]);
    AtTail(a, rest, o + 1, LE32(r.inferenceConfig.maxTokens));
    AtTail(a, rest, o + 5, r.inferenceConfig.stopSequencesRoot);
    AtTail(a, rest, o + 37, r.inferenceConfig.penaltyParamsRoot);
    AtTail(a, rest, o + 69, r.inputManifestRoot);
    if r.kvCacheRoot.Some? {
      AtTail(a, rest, o + 101, [1] + r.kvCacheRoot.value);
    } else {
      AtTail(a, rest, o + 101, [0]);
    }
  }

  /** The hashes and the sampling parameters at their fixed offsets. */
  predicate HeadAt(r: ExecutionContextRoot, p: seq<Byte>) {
    && At(p, 0, r.weightsHash) && At(p, 32, r.tokenizerHash) && At(p, 64, r.systemPromptHash)
    && At(p, 96, LE32(r.samplingParams.temperature)) && At(p, 100, LE32(r.samplingParams.topK))
    && At(p, 104, LE32(r.samplingParams.topP)) && At(p, 108, LE64(r.samplingParams.seed))
    && At(p, 116, r.runtimeVersion)
  }

  lemma HeadLayout(r: ExecutionContextRoot, rest: seq<Byte>)
    ensures HeadAt(r, r.weightsHash + (r.tokenizerHash + (r.systemPromptHash + (r.samplingParams.ToBytes()
                      + (r.runtimeVersion + rest)))))
  {
    var w, t, s := r.weightsHash, r.tokenizerHash, r.systemPromptHash;
    var q, v := r.samplingParams.ToBytes(), r.runtimeVersion;
    AtHead(v, rest);
    AtHead(q, v + rest);
    AtHead(s, q + (v + rest));
    AtHead(t, s + (q + (v + rest)));
    AtHead(w, t + (s + (q + (v + rest))));
    AtTail(q, v + rest, 0, v);
    AtTail(s, q + (v + rest), 0, q);
    AtTail(s, q + (v + rest), 20, v);
    AtTail(t, s + (q + (v + rest)), 0, s);
    AtTail(t, s + (q + (v + rest)), 32, q);
    AtTail(t, s + (q + (v + rest)), 52, v);
    AtTail(w, t + (s + (q + (v + rest))), 0, t);
    AtTail(w, t + (s + (q + (v + rest))), 32, s);
    AtTail(w, t + (s + (q + (v + rest))), 64, q);
    AtTail(w, t + (s + (q + (v + rest))), 84, v);
    SamplingWithin(r.samplingParams, w + (t + (s + (q + (v + rest)))));
  }

  lemma SamplingWithin(s: SamplingParams, p: seq<Byte>)
    requires At(p, 96, s.ToBytes())
    ensures At(p, 96, LE32(s.temperature)) && At(p, 100, LE32(s.topK))
    ensures At(p, 104, LE32(s.topP)) && At(p, 108, LE64(s.seed))
  {
    SamplingLayout(s);
    AtWithin(p, 96, s.ToBytes(), 0, LE32(s.temperature));
    AtWithin(p, 96, s.ToBytes(), 4, LE32(s.topK));
    AtWithin(p, 96, s.ToBytes(), 8, LE32(s.topP));
    AtWithin(p, 96, s.ToBytes(), 12, LE64(s.seed));
  }

  /** The attention field: a byte below 4, or the marker 0x80 and the tag. */
  function AttentionBytes(a: AttentionImpl): seq<Byte> {
    if a == FlashAttention2 then [1]
    else if a == Sdpa then [2]
    else if a == FlexAttention then [3]
    else [0x80, a.tag]
  }

  /** Every field sits at its own offset: fixed ones up to the attention field at
      148, and fixed distances from it on. */
  lemma PreimageLayout(r: ExecutionContextRoot)
    ensures HeadAt(r, r.Preimage())
    ensures At(r.Preimage(), 148, AttentionBytes(r.attentionImplId))
    ensures TailAt(r, r.Preimage(), if r.attentionImplId.Other? then 150 else 149)
  {
    var a, tail := r.attentionImplId.Encoding(), r.AfterAttention();
    HeadLayout(r, a + tail);
    TailLayout(r);
    TailMoves(r, a, tail, 0);
    AtHead(a, tail);
    AfterHead(r, a + tail, a, |a|);
  }

  /** What stands after the 148 bytes of the head. */
  lemma AfterHead(r: ExecutionContextRoot, rest: seq<Byte>, a: seq<Byte>, o: nat)
    requires At(rest, 0, a) && TailAt(r, rest, o)
    ensures var p := r.weightsHash + (r.tokenizerHash + (r.systemPromptHash + (r.samplingParams.ToBytes()
                       + (r.runtimeVersion + rest))));
      At(p, 148, a) && TailAt(r, p, 148 + o)
  {
    var w, t, s := r.weightsHash, r.tokenizerHash, r.systemPromptHash;
    var q, v := r.samplingParams.ToBytes(), r.runtimeVersion;
    AtTail(v, rest, 0, a);
    AtTail(q, v + rest, 32, a);
    AtTail(s, q + (v + rest), 52, a);
    AtTail(t, s + (q + (v + rest)), 84, a);
    AtTail(w, t + (s + (q + (v + rest))), 116, a);
    TailMoves(r, v, rest, o);
    TailMoves(r, q, v + rest, 32 + o);
    TailMoves(r, s, q + (v + rest), 52 + o);
    TailMoves(r, t, s + (q + (v + rest)), 84 + o);
    TailMoves(r, w, t + (s + (q + (v + rest))), 116 + o);
  }
}
