/** Commitments, their signing digest, and the software committer and verifier
    (src/commitment.rs, src/mock.rs). */
module Commitment {
  import opened Types
  import opened Sequences
  import opened Text
  import opened Hashing
  import opened Anchor
  import opened Context

  datatype Vendor = IntelTdx | AmdSevSnp | NvidiaH100 | MockSoftware

  datatype FreshnessCommitment = FreshnessCommitment(
    contextRoot: Hash32,
    anchor: TripleAnchor,
    outputHash: Hash32,
    signature: Signature,
    publicKey: Hash32,
    vendor: Vendor)

  function DigestPreimage(contextRoot: Hash32, anchor: TripleAnchor, outputHash: Hash32): seq<Byte> {
    contextRoot + (LE64(anchor.blockHeight) + (LE128(anchor.teeTimestamp) + (LE64(anchor.drandRound) + outputHash)))
  }

  function SigningDigest(crypto: Crypto, c: FreshnessCommitment): Hash32 {
    crypto.sha256(DigestPreimage(c.contextRoot, c.anchor, c.outputHash))
  }

  lemma DigestPreimageInjective(r: Hash32, a: TripleAnchor, o: Hash32, r': Hash32, a': TripleAnchor, o': Hash32)
    requires DigestPreimage(r, a, o) == DigestPreimage(r', a', o')
    ensures r == r' && a == a' && o == o'
  {
    var x3, y3 := LE64(a.drandRound) + o, LE64(a'.drandRound) + o';
    var x2, y2 := LE128(a.teeTimestamp) + x3, LE128(a'.teeTimestamp) + y3;
    Split(r, LE64(a.blockHeight) + x2, r', LE64(a'.blockHeight) + y2);
    Split(LE64(a.blockHeight), x2, LE64(a'.blockHeight), y2);
    Split(LE128(a.teeTimestamp), x3, LE128(a'.teeTimestamp), y3);
    Split(LE64(a.drandRound), o, LE64(a'.drandRound), o');
    LE64Injective(a.blockHeight, a'.blockHeight);
    LE128Injective(a.teeTimestamp, a'.teeTimestamp);
    LE64Injective(a.drandRound, a'.drandRound);
  }

  /** The signed bytes: each field at its own offset, 96 in all. */
  lemma DigestLayout(r: Hash32, a: TripleAnchor, o: Hash32)
    ensures var p := DigestPreimage(r, a, o);
      && |p| == 96 && At(p, 0, r) && At(p, 32, LE64(a.blockHeight)) && At(p, 40, LE128(a.teeTimestamp))
      && At(p, 56, LE64(a.drandRound)) && At(p, 64, o)
  {
    var b, t, d := LE64(a.blockHeight), LE128(a.teeTimestamp), LE64(a.drandRound);
    AtHead(d, o);
    AtHead(t, d + o);
    AtHead(b, t + (d + o));
    AtHead(r, b + (t + (d + o)));
    assert At(o, 0, o);
    AtTail(d, o, 0, o);
    AtTail(t, d + o, 0, d);
    AtTail(t, d + o, 8, o);
    AtTail(b, t + (d + o), 0, t);
    AtTail(b, t + (d + o), 16, d);
    AtTail(b, t + (d + o), 24, o);
    AtTail(r, b + (t + (d + o)), 0, b);
    AtTail(r, b + (t + (d + o)), 8, t);
    AtTail(r, b + (t + (d + o)), 24, d);
    AtTail(r, b + (t + (d + o)), 32, o);
  }

  // ---------- committer and verifier ----------

  /** An Ed25519 key pair. */
  datatype SigningKey = SigningKey(publicKey: Hash32, sign: seq<Byte> -> Signature)
  {
    /** Whatever the key signs verifies under its public half. */
    ghost predicate Signs(crypto: Crypto) {
      forall m :: crypto.verifies(publicKey, m, sign(m))
    }
  }

  /** The commitment `MockCommitter::commit` returns. */
  function Commit(crypto: Crypto, key: SigningKey, root: ExecutionContextRoot, outputHash: Hash32, anchor: TripleAnchor)
    : FreshnessCommitment
  {
    var contextRoot := root.MerkleRoot(crypto);
    var digest := crypto.sha256(DigestPreimage(contextRoot, anchor, outputHash));
    FreshnessCommitment(contextRoot, anchor, outputHash, key.sign(digest), key.publicKey, MockSoftware)
  }

  lemma FiveFields(a: seq<Byte>, b: seq<Byte>, c: seq<Byte>, d: seq<Byte>, e: seq<Byte>)
    ensures [] + a + b + c + d + e == a + (b + (c + (d + e)))
  {}

  /** `MockCommitter::commit`: the digest is built by feeding a hasher field by field. */
  method CommitContext(crypto: Crypto, key: SigningKey, root: ExecutionContextRoot, outputHash: Hash32,
                       anchor: TripleAnchor)
    returns (c: FreshnessCommitment)
    ensures c == Commit(crypto, key, root, outputHash, anchor)
  {
    var contextRoot := ComputeMerkleRoot(crypto, root);
    var h := new Hasher();
    h.Update(contextRoot);
    h.Update(LE64(anchor.blockHeight));
    h.Update(LE128(anchor.teeTimestamp));
    h.Update(LE64(anchor.drandRound));
    h.Update(outputHash);
    FiveFields(contextRoot, LE64(anchor.blockHeight), LE128(anchor.teeTimestamp), LE64(anchor.drandRound), outputHash);
    var digest := h.Finalize(crypto);
    c := FreshnessCommitment(contextRoot, anchor, outputHash, key.sign(digest), key.publicKey, MockSoftware);
  }

  /** `MockVerifier::verify`: the signature first, then the attestation vendor. */
  function Verify(crypto: Crypto, c: FreshnessCommitment): Result<()> {
    if !crypto.verifies(c.publicKey, SigningDigest(crypto, c), c.signature) then Err(InvalidSignature)
    else if c.vendor != MockSoftware then Err(InvalidAttestation)
    else Ok(())
  }

  /** The verifier's answer: the signature is checked before the vendor, and only
      the software vendor passes. */
  lemma VerifyMeans(crypto: Crypto, c: FreshnessCommitment)
    ensures var digest := crypto.sha256(DigestPreimage(c.contextRoot, c.anchor, c.outputHash));
      var signed := crypto.verifies(c.publicKey, digest, c.signature);
      && (Verify(crypto, c) == Ok(()) <==> signed && c.vendor == MockSoftware)
      && (Verify(crypto, c) == Err(InvalidSignature) <==> !signed)
      && (Verify(crypto, c) == Err(InvalidAttestation) <==> signed && c.vendor != MockSoftware)
  {}

  /** The disclosed context hashes to the committed root. */
  predicate Binds(crypto: Crypto, c: FreshnessCommitment, root: ExecutionContextRoot) {
    root.MerkleRoot(crypto) == c.contextRoot
  }

  /** A commitment carries its inputs, verifies, and binds the context it was made for. */
  lemma CommitVerifies(crypto: Crypto, key: SigningKey, root: ExecutionContextRoot, outputHash: Hash32,
                       anchor: TripleAnchor)
    requires key.Signs(crypto)
    ensures var c := Commit(crypto, key, root, outputHash, anchor);
      && Verify(crypto, c) == Ok(()) && Binds(crypto, c, root)
      && c.contextRoot == crypto.sha256(root.Preimage()) && c.anchor == anchor && c.outputHash == outputHash
      && c.publicKey == key.publicKey && c.vendor == MockSoftware
  {}

  /** Barring a collision between the two contexts, only the committed context
      can be disclosed: the gate reads exactly the fields that were signed. */
  lemma OnlyTheCommittedContextBinds(crypto: Crypto, key: SigningKey, root: ExecutionContextRoot,
                                     outputHash: Hash32, anchor: TripleAnchor, disclosed: ExecutionContextRoot)
    requires crypto.NoCollision(root.Preimage(), disclosed.Preimage())
    ensures Binds(crypto, Commit(crypto, key, root, outputHash, anchor), disclosed) <==> disclosed == root
  {
    if Binds(crypto, Commit(crypto, key, root, outputHash, anchor), disclosed) {
      PreimageInjective(root, disclosed);
    }
  }

  /** Two commitments share a signing digest only when they agree on root, clocks and output. */
  lemma DigestBinds(crypto: Crypto, c: FreshnessCommitment, d: FreshnessCommitment)
    requires crypto.NoCollision(DigestPreimage(c.contextRoot, c.anchor, c.outputHash),
                                DigestPreimage(d.contextRoot, d.anchor, d.outputHash))
    ensures SigningDigest(crypto, c) == SigningDigest(crypto, d)
       <==> c.contextRoot == d.contextRoot && c.anchor == d.anchor && c.outputHash == d.outputHash
  {
    if SigningDigest(crypto, c) == SigningDigest(crypto, d) {
      DigestPreimageInjective(c.contextRoot, c.anchor, c.outputHash, d.contextRoot, d.anchor, d.outputHash);
    }
  }
}
