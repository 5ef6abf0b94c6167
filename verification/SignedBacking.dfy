/** Signed backing entries (src/backing.rs): what a validator's signature
    covers, and the projection of a signed set onto its trusted entries. */
module SignedBacking {
  import opened Types
  import opened Sequences
  import opened Text
  import opened Hashing
  import opened Commitment
  import opened OldestWins
  import opened Backing

  datatype SignedBackingEntry = SignedBackingEntry(
    entry: BackingEntry,
    contentHash: Hash32,
    signature: Signature,
    validatorPubkey: Hash32)

  /** `len() as u32` keeps the low 32 bits of the length. */
  function LengthPrefix(bytes: seq<Byte>): seq<Byte> {
    LE32(|bytes| % 0x1_0000_0000)
  }

  function DigestPreimage(e: BackingEntry, contentHash: Hash32): seq<Byte> {
    var id, kind := Utf8(e.sourceId), Utf8(e.freshnessClass);
    LengthPrefix(id) + (id + (LE64(e.attestedAtSecs) + (LengthPrefix(kind) + (kind + contentHash))))
  }

  function SigningDigest(crypto: Crypto, e: BackingEntry, contentHash: Hash32): Hash32 {
    crypto.sha256(DigestPreimage(e, contentHash))
  }

  /** `signing_digest`: the fields are fed to the hasher one after another. */
  method ComputeSigningDigest(crypto: Crypto, e: BackingEntry, contentHash: Hash32) returns (digest: Hash32)
    ensures digest == SigningDigest(crypto, e, contentHash)
  {
    var id, kind := Utf8(e.sourceId), Utf8(e.freshnessClass);
    var h := new Hasher();
    h.Update(LengthPrefix(id));
    h.Update(id);
    h.Update(LE64(e.attestedAtSecs));
    h.Update(LengthPrefix(kind));
    h.Update(kind);
    h.Update(contentHash);
    SixFields(LengthPrefix(id), id, LE64(e.attestedAtSecs), LengthPrefix(kind), kind, contentHash);
    digest := h.Finalize(crypto);
  }

  lemma SixFields(a: seq<Byte>, b: seq<Byte>, c: seq<Byte>, d: seq<Byte>, e: seq<Byte>, f: seq<Byte>)
    ensures [] + a + b + c + d + e + f == a + (b + (c + (d + (e + f))))
  {}

  /** The signed bytes: length, id, time, length, class and content hash, each
      length in four bytes. */
  lemma DigestLayout(e: BackingEntry, contentHash: Hash32)
    ensures var p, id, kind := DigestPreimage(e, contentHash), Utf8(e.sourceId), Utf8(e.freshnessClass);
      && At(p, 0, LE32(|id| % 0x1_0000_0000)) && At(p, 4, id) && At(p, 4 + |id|, LE64(e.attestedAtSecs))
      && At(p, 12 + |id|, LE32(|kind| % 0x1_0000_0000)) && At(p, 16 + |id|, kind)
      && At(p, 16 + |id| + |kind|, contentHash) && |p| == 48 + |id| + |kind|
  {
    FieldsLayout(LE32(|Utf8(e.sourceId)| % 0x1_0000_0000), Utf8(e.sourceId), LE64(e.attestedAtSecs),
                 LE32(|Utf8(e.freshnessClass)| % 0x1_0000_0000), Utf8(e.freshnessClass), contentHash);
  }

  lemma FieldsLayout(a: seq<Byte>, id: seq<Byte>, t: seq<Byte>, b: seq<Byte>, kind: seq<Byte>, h: seq<Byte>)
    ensures var p := a + (id + (t + (b + (kind + h))));
      && At(p, 0, a) && At(p, |a|, id) && At(p, |a| + |id|, t)
      && At(p, |a| + (|id| + |t|), b) && At(p, |a| + (|id| + (|t| + |b|)), kind)
      && At(p, |a| + (|id| + (|t| + (|b| + |kind|))), h)
      && |p| == |a| + |id| + |t| + |b| + |kind| + |h|
  {
    var y := b + (kind + h);
    ThreeFields(b, kind, h);
    ThreeFields(a, id, t + y);
    AtHead(t, y);
    AtTail(id, t + y, 0, t);
    AtTail(a, id + (t + y), |id|, t);
    AfterTime(a, id, t, y, 0, b);
    AfterTime(a, id, t, y, |b|, kind);
    AfterTime(a, id, t, y, |b| + |kind|, h);
  }

  lemma ThreeFields(a: seq<Byte>, b: seq<Byte>, c: seq<Byte>)
    ensures At(a + (b + c), 0, a) && At(a + (b + c), |a|, b) && At(a + (b + c), |a| + |b|, c)
  {
    assert At(c, 0, c);
    AtHead(b, c);
    AtTail(b, c, 0, c);
    AtHead(a, b + c);
    AtTail(a, b + c, 0, b);
    AtTail(a, b + c, |b|, c);
  }

  lemma AfterTime(a: seq<Byte>, id: seq<Byte>, t: seq<Byte>, y: seq<Byte>, o: nat, field: seq<Byte>)
    requires At(y, o, field)
    ensures At(a + (id + (t + y)), |a| + (|id| + (|t| + o)), field)
  {
    AtTail(t, y, o, field);
    AtTail(id, t + y, |t| + o, field);
    AtTail(a, id + (t + y), |id| + (|t| + o), field);
  }

  predicate ShortId(e: BackingEntry) {
    |Utf8(e.sourceId)| < 0x1_0000_0000
  }

  predicate ShortClass(e: BackingEntry) {
    |Utf8(e.freshnessClass)| < 0x1_0000_0000
  }

  /** Both ids, or both classes, are shorter than 2^32 bytes. */
  predicate FitPrefixes(a: BackingEntry, b: BackingEntry) {
    (ShortId(a) && ShortId(b)) || (ShortClass(a) && ShortClass(b))
  }

  /** A prefix fixes the length up to a multiple of 2^32. */
  lemma PrefixTellsLength(x: seq<Byte>, y: seq<Byte>)
    requires LengthPrefix(x) == LengthPrefix(y)
    ensures |x| % 0x1_0000_0000 == |y| % 0x1_0000_0000
  {
    LE32Injective(|x| % 0x1_0000_0000, |y| % 0x1_0000_0000);
  }

  lemma SameLength(m: nat, n: nat)
    requires m % 0x1_0000_0000 == n % 0x1_0000_0000 && AbsDiff(m, n) < 0x1_0000_0000
    ensures m == n
  {}

  /** Ids of one length and classes of one length are cut off unambiguously. */
  lemma EqualLengthsInjective(a: BackingEntry, x: Hash32, b: BackingEntry, y: Hash32)
    requires |Utf8(a.sourceId)| == |Utf8(b.sourceId)|
    requires DigestPreimage(a, x) == DigestPreimage(b, y)
    ensures a == b && x == y
  {
    var ia, ib, ka, kb := Utf8(a.sourceId), Utf8(b.sourceId), Utf8(a.freshnessClass), Utf8(b.freshnessClass);
    var sa, sb := LengthPrefix(ka) + (ka + x), LengthPrefix(kb) + (kb + y);
    Split(LengthPrefix(ia), ia + (LE64(a.attestedAtSecs) + sa), LengthPrefix(ib), ib + (LE64(b.attestedAtSecs) + sb));
    Split(ia, LE64(a.attestedAtSecs) + sa, ib, LE64(b.attestedAtSecs) + sb);
    Split(LE64(a.attestedAtSecs), sa, LE64(b.attestedAtSecs), sb);
    Split(LengthPrefix(ka), ka + x, LengthPrefix(kb), kb + y);
    Split(ka, x, kb, y);
    Utf8Injective(a.sourceId, b.sourceId);
    Utf8Injective(a.freshnessClass, b.freshnessClass);
    LE64Injective(a.attestedAtSecs, b.attestedAtSecs);
  }

  /** Equal preimages: the ids' lengths agree up to a multiple of 2^32, and what
      one field gains the other loses. */
  lemma PreimageLengths(a: BackingEntry, x: Hash32, b: BackingEntry, y: Hash32)
    requires DigestPreimage(a, x) == DigestPreimage(b, y)
    ensures |Utf8(a.sourceId)| % 0x1_0000_0000 == |Utf8(b.sourceId)| % 0x1_0000_0000
    ensures |Utf8(a.sourceId)| + |Utf8(a.freshnessClass)| == |Utf8(b.sourceId)| + |Utf8(b.freshnessClass)|
  {
    var ia, ib, ka, kb := Utf8(a.sourceId), Utf8(b.sourceId), Utf8(a.freshnessClass), Utf8(b.freshnessClass);
    Split(LengthPrefix(ia), ia + (LE64(a.attestedAtSecs) + (LengthPrefix(ka) + (ka + x))),
          LengthPrefix(ib), ib + (LE64(b.attestedAtSecs) + (LengthPrefix(kb) + (kb + y))));
    PrefixTellsLength(ia, ib);
  }

  /** With both ids or both classes in the prefixes' range the preimage
      determines every signed field. */
  lemma DigestPreimageInjective(a: BackingEntry, x: Hash32, b: BackingEntry, y: Hash32)
    requires FitPrefixes(a, b)
    requires DigestPreimage(a, x) == DigestPreimage(b, y)
    ensures a == b && x == y
  {
    PreimageLengths(a, x, b, y);
    SameLength(|Utf8(a.sourceId)|, |Utf8(b.sourceId)|);
    EqualLengthsInjective(a, x, b, y);
  }

  // ---------- past the prefixes' range ----------

  function Nuls(n: nat): string {
    seq(n, i => 0 as char)
  }

  function Zeros(n: nat): seq<Byte> {
    seq(n, i => 0)
  }

  lemma NulBytes(n: nat)
    ensures Utf8(Nuls(n)) == Zeros(n)
  {
    AsciiBytes(Nuls(n));
  }

  lemma ZeroIntegers()
    ensures LE32(0) == Zeros(4) && LE64(0) == Zeros(8)
  {
    assert LittleEndian(0, 2) == Zeros(2);
    assert LittleEndian(0, 4) == Zeros(4);
    assert LittleEndian(0, 6) == Zeros(6);
  }

  /** The id is at most `n` bytes long and the class at most `m`. */
  predicate Within(n: nat, m: nat, e: BackingEntry) {
    |Utf8(e.sourceId)| <= n && |Utf8(e.freshnessClass)| <= m
  }

  /** Entries with ids of at most `n` bytes and classes of at most `m` never
      share a preimage. */
  ghost predicate PreimagesDiffer(n: nat, m: nat) {
    forall a, x, b, y :: Within(n, m, a) && Within(n, m, b) && DigestPreimage(a, x) == DigestPreimage(b, y)
      ==> a == b && x == y
  }

  /** Preimages determine their entries exactly as long as one of the two fields
      stays below 2^32 bytes. */
  lemma PreimagesDifferIff(n: nat, m: nat)
    ensures PreimagesDiffer(n, m) <==> n < 0x1_0000_0000 || m < 0x1_0000_0000
  {
    if n < 0x1_0000_0000 || m < 0x1_0000_0000 {
      forall a, x, b, y | Within(n, m, a) && Within(n, m, b) && DigestPreimage(a, x) == DigestPreimage(b, y)
        ensures a == b && x == y
      {
        DigestPreimageInjective(a, x, b, y);
      }
    } else {
      WrappedPrefixCollides(Zeros(32));
      NulBytes(0x1_0000_0000);
      var (a, b) := WrappedPair();
      assert Within(n, m, a) && Within(n, m, b);
    }
  }

  /** An entry with a field of exactly 2^32 bytes, and one with the fields exchanged. */
  function WrappedPair(): (BackingEntry, BackingEntry) {
    (BackingEntry(Nuls(0x1_0000_0000), 0, ""), BackingEntry("", 0, Nuls(0x1_0000_0000)))
  }

  /** Such a field wraps its prefix, and the two entries share a preimage. */
  lemma WrappedPrefixCollides(h: Hash32)
    ensures WrappedPair().0 != WrappedPair().1
    ensures DigestPreimage(WrappedPair().0, h) == DigestPreimage(WrappedPair().1, h)
  {
    var n := 0x1_0000_0000;
    assert |Nuls(n)| == n;
    NulEntries(n, h);
    ZeroRuns(n, h);
  }

  lemma NulEntries(n: nat, h: Hash32)
    requires n % 0x1_0000_0000 == 0
    ensures DigestPreimage(BackingEntry(Nuls(n), 0, ""), h)
         == Zeros(4) + (Zeros(n) + (Zeros(8) + (Zeros(4) + ([] + h))))
    ensures DigestPreimage(BackingEntry("", 0, Nuls(n)), h)
         == Zeros(4) + ([] + (Zeros(8) + (Zeros(4) + (Zeros(n) + h))))
  {
    NulBytes(n);
    ZeroIntegers();
    assert Utf8("") == [] && |Zeros(n)| == n;
  }

  lemma ZeroRuns(n: nat, h: seq<Byte>)
    ensures Zeros(4) + (Zeros(n) + (Zeros(8) + (Zeros(4) + ([] + h))))
         == Zeros(4) + ([] + (Zeros(8) + (Zeros(4) + (Zeros(n) + h))))
  {
    ZeroRun(8, 4, h);
    ZeroRun(n, 12, h);
    ZeroRun(4, n, h);
    ZeroRun(8, 4 + n, h);
    assert [] + h == h;
  }

  lemma ZeroRun(a: nat, b: nat, h: seq<Byte>)
    ensures Zeros(a) + (Zeros(b) + h) == Zeros(a + b) + h
  {
    assert Zeros(a) + Zeros(b) == Zeros(a + b);
    Append(Zeros(a), Zeros(b), h);
  }

  // ---------- signing and trust ----------

  function Sign(crypto: Crypto, key: SigningKey, e: BackingEntry, contentHash: Hash32): SignedBackingEntry {
    SignedBackingEntry(e, contentHash, key.sign(SigningDigest(crypto, e, contentHash)), key.publicKey)
  }

  predicate IsSignatureValid(crypto: Crypto, s: SignedBackingEntry) {
    crypto.verifies(s.validatorPubkey, SigningDigest(crypto, s.entry, s.contentHash), s.signature)
  }

  predicate IsTrusted(crypto: Crypto, trusted: set<Hash32>, s: SignedBackingEntry) {
    IsSignatureValid(crypto, s) && s.validatorPubkey in trusted
  }

  /** An entry signed by a working key is trusted exactly when the key is. */
  lemma SignedIsTrustedIff(crypto: Crypto, key: SigningKey, e: BackingEntry, contentHash: Hash32, trusted: set<Hash32>)
    requires key.Signs(crypto)
    ensures IsTrusted(crypto, trusted, Sign(crypto, key, e, contentHash)) <==> key.publicKey in trusted
    ensures var s := Sign(crypto, key, e, contentHash);
      s.entry == e && s.contentHash == contentHash && s.validatorPubkey == key.publicKey
  {}

  /** A signature moved onto another entry checks a different message, barring a collision. */
  lemma SignatureCoversEveryField(crypto: Crypto, a: BackingEntry, x: Hash32, b: BackingEntry, y: Hash32)
    requires FitPrefixes(a, b)
    requires crypto.NoCollision(DigestPreimage(a, x), DigestPreimage(b, y))
    ensures SigningDigest(crypto, a, x) == SigningDigest(crypto, b, y) <==> a == b && x == y
  {
    if SigningDigest(crypto, a, x) == SigningDigest(crypto, b, y) {
      DigestPreimageInjective(a, x, b, y);
    }
  }

  // ---------- signed sets ----------

  type SignedEntries = map<string, SignedBackingEntry>

  function SignedAt(s: SignedBackingEntry): U64 {
    s.entry.attestedAtSecs
  }

  function SignedId(s: SignedBackingEntry): string {
    s.entry.sourceId
  }

  function SignedUnion(a: SignedEntries, b: SignedEntries): SignedEntries {
    Merge(a, b, SignedAt)
  }

  /** The trusted entries, without their signatures. */
  function Verified(crypto: Crypto, trusted: set<Hash32>, m: SignedEntries): Entries {
    map k | k in m && IsTrusted(crypto, trusted, m[k]) :: m[k].entry
  }

  function RejectedSources(crypto: Crypto, trusted: set<Hash32>, m: SignedEntries): set<string> {
    set k | k in m && !IsTrusted(crypto, trusted, m[k])
  }

  class SignedBackingSet {
    var entries: SignedEntries

    constructor ()
      ensures entries == map[]
    {
      entries := map[];
    }

    method Insert(s: SignedBackingEntry)
      modifies this
      ensures entries == Put(old(entries), s.entry.sourceId, s, SignedAt)
    {
      if s.entry.sourceId in entries && entries[s.entry.sourceId].entry.attestedAtSecs <= s.entry.attestedAtSecs {
      } else {
        entries := entries[s.entry.sourceId := s];
      }
    }

    method InsertAll(ss: seq<SignedBackingEntry>)
      modifies this
      ensures entries == PutAll(old(entries), ss, SignedId, SignedAt)
    {
      for i := 0 to |ss|
        invariant entries == PutAll(old(entries), ss[..i], SignedId, SignedAt)
      {
        NextPut(old(entries), ss, i, SignedId, SignedAt);
        Insert(ss[i]);
      }
      assert ss[..|ss|] == ss;
    }

    /** The other set's entries are inserted under their own ids, whatever keys
        they sit under. */
    method UnionWith(other: SignedBackingSet) returns (out: SignedBackingSet)
      ensures fresh(out) && out.entries == SignedUnion(entries, Rekeyed(other.entries, SignedId, SignedAt))
      ensures Keyed(other.entries, SignedId) ==> out.entries == SignedUnion(entries, other.entries)
    {
      out := new SignedBackingSet();
      out.entries := entries;
      out.InsertAll(InOrderValues(other.entries));
      PutAllMerges(entries, InOrderValues(other.entries), SignedId, SignedAt);
      RekeyedIff(other.entries, SignedId, SignedAt);
    }

    /** `into_verified`: the trusted entries, inserted one by one into a plain
        set, and a count of the rest. */
    method IntoVerified(crypto: Crypto, trusted: set<Hash32>) returns (verified: BackingSet, rejected: nat)
      ensures fresh(verified)
      ensures verified.entries == FromList(TrustedEntries(crypto, trusted, entries))
      ensures Keyed(entries, SignedId) ==> verified.entries == Verified(crypto, trusted, entries)
      ensures rejected == |RejectedSources(crypto, trusted, entries)|
    {
      verified := new BackingSet();
      rejected := 0;
      var keys := OrderedKeys(entries);
      for i := 0 to |keys|
        invariant entries == old(entries) && fresh(verified)
        invariant verified.entries == FromList(TrustedAmong(crypto, trusted, entries, keys, i))
        invariant rejected + |TrustedAmong(crypto, trusted, entries, keys, i)| == i
      {
        var k := keys[i];
        assert k in keys;
        NextTrusted(crypto, trusted, entries, keys, i);
        if IsTrusted(crypto, trusted, entries[k]) {
          verified.Insert(entries[k].entry);
        } else {
          rejected := rejected + 1;
        }
      }
      EachTrustedOrRejected(crypto, trusted, entries);
      KeyedProjection(crypto, trusted, entries);
    }
  }

  /** The trusted entries under the first `n` keys, in that order. */
  function TrustedAmong(crypto: Crypto, trusted: set<Hash32>, m: SignedEntries, keys: seq<string>,
                        n: nat): seq<BackingEntry>
    requires n <= |keys| && forall k :: k in keys ==> k in m
  {
    if n == 0 then []
    else
      var earlier := TrustedAmong(crypto, trusted, m, keys, n - 1);
      if IsTrusted(crypto, trusted, m[keys[n-1]]) then earlier + [m[keys[n-1]].entry] else earlier
  }

  /** The trusted entries, in key order. */
  function TrustedEntries(crypto: Crypto, trusted: set<Hash32>, m: SignedEntries): seq<BackingEntry> {
    InOrderEnumerates(m.Keys);
    TrustedAmong(crypto, trusted, m, InOrder(m.Keys), |InOrder(m.Keys)|)
  }

  lemma NextTrusted(crypto: Crypto, trusted: set<Hash32>, m: SignedEntries, keys: seq<string>, i: nat)
    requires i < |keys| && forall k :: k in keys ==> k in m
    ensures var earlier, s := TrustedAmong(crypto, trusted, m, keys, i), m[keys[i]];
      FromList(TrustedAmong(crypto, trusted, m, keys, i + 1))
        == if IsTrusted(crypto, trusted, s) then Inserted(FromList(earlier), s.entry) else FromList(earlier)
  {
    var earlier, s := TrustedAmong(crypto, trusted, m, keys, i), m[keys[i]];
    assert (earlier + [s.entry])[..|earlier|] == earlier;
  }

  function TrustedIn(crypto: Crypto, trusted: set<Hash32>, m: SignedEntries): string -> bool {
    k => k in m && IsTrusted(crypto, trusted, m[k])
  }

  ghost predicate EntriesUnder(es: seq<BackingEntry>, ks: seq<string>, m: SignedEntries) {
    |es| == |ks| && forall i :: 0 <= i < |es| ==> ks[i] in m && es[i] == m[ks[i]].entry
  }

  lemma OneMoreUnder(es: seq<BackingEntry>, ks: seq<string>, m: SignedEntries, k: string)
    requires EntriesUnder(es, ks, m) && k in m
    ensures EntriesUnder(es + [m[k].entry], ks + [k], m)
  {}

  lemma {:induction false} TrustedUnderKeptKeys(crypto: Crypto, trusted: set<Hash32>, m: SignedEntries,
                                                keys: seq<string>, n: nat)
    requires n <= |keys| && forall k :: k in keys ==> k in m
    ensures EntriesUnder(TrustedAmong(crypto, trusted, m, keys, n), Kept(keys, TrustedIn(crypto, trusted, m), n), m)
  {
    if n == 0 {
    } else {
      TrustedUnderKeptKeys(crypto, trusted, m, keys, n - 1);
      assert keys[n-1] in keys;
      OneMoreUnder(TrustedAmong(crypto, trusted, m, keys, n - 1), Kept(keys, TrustedIn(crypto, trusted, m), n - 1),
                   m, keys[n-1]);
    }
  }

  /** The keys of the trusted entries, in key order. */
  function TrustedKeys(crypto: Crypto, trusted: set<Hash32>, m: SignedEntries): seq<string> {
    Kept(InOrder(m.Keys), TrustedIn(crypto, trusted, m), |InOrder(m.Keys)|)
  }

  lemma TrustedKeysEnumerate(crypto: Crypto, trusted: set<Hash32>, m: SignedEntries)
    ensures Enumerates(TrustedKeys(crypto, trusted, m), Verified(crypto, trusted, m).Keys)
  {
    InOrderEnumerates(m.Keys);
    KeptEnumerates(InOrder(m.Keys), m.Keys, TrustedIn(crypto, trusted, m), Verified(crypto, trusted, m).Keys);
  }

  lemma TrustedAreValues(crypto: Crypto, trusted: set<Hash32>, m: SignedEntries, ks: seq<string>)
    requires ks == TrustedKeys(crypto, trusted, m)
    requires forall k :: k in ks ==> k in Verified(crypto, trusted, m)
    ensures TrustedEntries(crypto, trusted, m) == Values(Verified(crypto, trusted, m), ks)
  {
    InOrderEnumerates(m.Keys);
    TrustedUnderKeptKeys(crypto, trusted, m, InOrder(m.Keys), |InOrder(m.Keys)|);
    forall i | 0 <= i < |ks| ensures TrustedEntries(crypto, trusted, m)[i] == Verified(crypto, trusted, m)[ks[i]] {
      assert ks[i] in ks;
    }
  }

  /** Of a keyed set, the trusted entries land under their own keys. */
  lemma KeyedProjection(crypto: Crypto, trusted: set<Hash32>, m: SignedEntries)
    ensures Keyed(m, SignedId) ==> FromList(TrustedEntries(crypto, trusted, m)) == Verified(crypto, trusted, m)
  {
    var ks := TrustedKeys(crypto, trusted, m);
    TrustedKeysEnumerate(crypto, trusted, m);
    TrustedAreValues(crypto, trusted, m, ks);
    if Keyed(m, SignedId) {
      KeyedIsRebuilt(Verified(crypto, trusted, m), ks, SourceId, AttestedAt);
    }
  }

  /** Every signed entry is either trusted or counted as rejected. */
  lemma EachTrustedOrRejected(crypto: Crypto, trusted: set<Hash32>, m: SignedEntries)
    ensures |TrustedEntries(crypto, trusted, m)| + |RejectedSources(crypto, trusted, m)| == |m|
  {
    InOrderEnumerates(m.Keys);
    var keys, p := InOrder(m.Keys), TrustedIn(crypto, trusted, m);
    var q := k => !p(k);
    TrustedUnderKeptKeys(crypto, trusted, m, keys, |keys|);
    KeptCounts(keys, p, |keys|);
    KeptEnumerates(keys, m.Keys, q, RejectedSources(crypto, trusted, m));
    EnumeratesCounts(Kept(keys, q, |keys|), RejectedSources(crypto, trusted, m));
    assert |m| == |m.Keys|;
  }

  /** The projection and the rejected count add up to the size of the set
      exactly when the trusted entries carry distinct ids. */
  lemma ProjectionConservesIff(crypto: Crypto, trusted: set<Hash32>, m: SignedEntries)
    ensures var es := TrustedEntries(crypto, trusted, m);
      |FromList(es)| + |RejectedSources(crypto, trusted, m)| == |m| <==> DistinctIds(es, SourceId)
  {
    EachTrustedOrRejected(crypto, trusted, m);
    GatheredCounts(TrustedEntries(crypto, trusted, m), SourceId, AttestedAt);
  }

  /** So it is for every keyed set. */
  lemma ProjectionConserves(crypto: Crypto, trusted: set<Hash32>, m: SignedEntries)
    ensures |Verified(crypto, trusted, m)| + |RejectedSources(crypto, trusted, m)| == |m|
  {
    var v, r := Verified(crypto, trusted, m).Keys, RejectedSources(crypto, trusted, m);
    assert v + r == m.Keys && v !! r;
  }

  /** An untrusted entry is kept over a trusted one under a shared key. */
  ghost predicate Shadows(crypto: Crypto, trusted: set<Hash32>, a: SignedEntries, b: SignedEntries, k: string) {
    && k in a && k in b
    && var kept, dropped := Older(a[k], b[k], SignedAt), if SignedAt(a[k]) <= SignedAt(b[k]) then b[k] else a[k];
       !IsTrusted(crypto, trusted, kept) && IsTrusted(crypto, trusted, dropped)
  }

  lemma ProjectionShadowed(crypto: Crypto, trusted: set<Hash32>, a: SignedEntries, b: SignedEntries, k: string)
    requires Shadows(crypto, trusted, a, b, k)
    ensures k !in Verified(crypto, trusted, SignedUnion(a, b))
    ensures k in Union(Verified(crypto, trusted, a), Verified(crypto, trusted, b))
  {
    assert SignedUnion(a, b)[k] == Older(a[k], b[k], SignedAt);
  }

  lemma ProjectionInOne(crypto: Crypto, trusted: set<Hash32>, a: SignedEntries, b: SignedEntries, k: string)
    requires !(k in a && k in b)
    ensures Agree(Verified(crypto, trusted, SignedUnion(a, b)),
                  Union(Verified(crypto, trusted, a), Verified(crypto, trusted, b)), k)
  {
    var u := SignedUnion(a, b);
    assert k in u ==> u[k] == if k in a then a[k] else b[k];
  }

  lemma ProjectionInBoth(crypto: Crypto, trusted: set<Hash32>, a: SignedEntries, b: SignedEntries, k: string)
    requires k in a && k in b && !Shadows(crypto, trusted, a, b, k)
    ensures Agree(Verified(crypto, trusted, SignedUnion(a, b)),
                  Union(Verified(crypto, trusted, a), Verified(crypto, trusted, b)), k)
  {
    var u := SignedUnion(a, b);
    assert u[k] == Older(a[k], b[k], SignedAt);
  }

  ghost predicate Agree(l: Entries, r: Entries, k: string) {
    (k in l <==> k in r) && (k in l ==> l[k] == r[k])
  }

  lemma SameEntries(l: Entries, r: Entries)
    requires forall k :: Agree(l, r, k)
    ensures l == r
  {
    forall k ensures k in l.Keys <==> k in r.Keys {
      assert Agree(l, r, k);
    }
    assert l.Keys == r.Keys;
    forall k | k in l ensures l[k] == r[k] {
      assert Agree(l, r, k);
    }
  }

  lemma ProjectionCommutesUnshadowed(crypto: Crypto, trusted: set<Hash32>, a: SignedEntries, b: SignedEntries)
    requires forall k :: !Shadows(crypto, trusted, a, b, k)
    ensures Verified(crypto, trusted, SignedUnion(a, b))
         == Union(Verified(crypto, trusted, a), Verified(crypto, trusted, b))
  {
    var l := Verified(crypto, trusted, SignedUnion(a, b));
    var r := Union(Verified(crypto, trusted, a), Verified(crypto, trusted, b));
    forall k ensures Agree(l, r, k) {
      if k in a && k in b {
        ProjectionInBoth(crypto, trusted, a, b, k);
      } else {
        ProjectionInOne(crypto, trusted, a, b, k);
      }
    }
    SameEntries(l, r);
  }

  /** Sets are merged before trust is checked, so projecting commutes with
      union exactly when no untrusted older entry shadows a trusted one. */
  lemma ProjectionCommutesIff(crypto: Crypto, trusted: set<Hash32>, a: SignedEntries, b: SignedEntries)
    ensures Verified(crypto, trusted, SignedUnion(a, b))
         == Union(Verified(crypto, trusted, a), Verified(crypto, trusted, b))
       <==> forall k :: !Shadows(crypto, trusted, a, b, k)
  {
    if forall k :: !Shadows(crypto, trusted, a, b, k) {
      ProjectionCommutesUnshadowed(crypto, trusted, a, b);
    } else {
      var k :| Shadows(crypto, trusted, a, b, k);
      ProjectionShadowed(crypto, trusted, a, b, k);
    }
  }

  /** When every entry of both sets is trusted, verification refines union. */
  lemma TrustedSetsProjectTogether(crypto: Crypto, trusted: set<Hash32>, a: SignedEntries, b: SignedEntries)
    requires forall k :: k in a ==> IsTrusted(crypto, trusted, a[k])
    requires forall k :: k in b ==> IsTrusted(crypto, trusted, b[k])
    ensures Verified(crypto, trusted, SignedUnion(a, b))
         == Union(Verified(crypto, trusted, a), Verified(crypto, trusted, b))
    ensures RejectedSources(crypto, trusted, SignedUnion(a, b)) == {}
  {
    ProjectionCommutesIff(crypto, trusted, a, b);
  }

  /** A trusted entry of the set carries this id. */
  ghost predicate TrustedWithId(crypto: Crypto, trusted: set<Hash32>, m: SignedEntries, j: string, k: string) {
    && j in m && m[j].entry.sourceId == k && m[j].validatorPubkey in trusted
    && crypto.verifies(m[j].validatorPubkey, crypto.sha256(DigestPreimage(m[j].entry, m[j].contentHash)),
                       m[j].signature)
  }

  /** What the projection holds, whatever keys the entries sit under: exactly the
      ids of trusted entries, each with the oldest of the entries a trusted key
      validly signed for it. */
  lemma ProjectedWasSigned(crypto: Crypto, trusted: set<Hash32>, m: SignedEntries, k: string)
    ensures k in FromList(TrustedEntries(crypto, trusted, m)) <==> exists j :: TrustedWithId(crypto, trusted, m, j, k)
    ensures k in FromList(TrustedEntries(crypto, trusted, m)) ==>
      exists j ::
        OldestTrusted(crypto, trusted, m, j, k) && FromList(TrustedEntries(crypto, trusted, m))[k] == m[j].entry
  {
    var es, ks := TrustedEntries(crypto, trusted, m), TrustedKeys(crypto, trusted, m);
    TrustedKeysEnumerate(crypto, trusted, m);
    InOrderEnumerates(m.Keys);
    TrustedUnderKeptKeys(crypto, trusted, m, InOrder(m.Keys), |InOrder(m.Keys)|);
    var i := GatheredHoldsOldest(es, SourceId, AttestedAt, k);
    if k in FromList(es) {
      OldestUnder(crypto, trusted, m, es, ks, i, k);
    }
    forall j | TrustedWithId(crypto, trusted, m, j, k) ensures HasId(es, SourceId, k) {
      var x := TrustedAt(crypto, trusted, m, es, ks, j);
      assert SourceId(es[x]) == k;
    }
  }

  /** The trusted entry under key `j`, and none with its id is older. */
  ghost predicate OldestTrusted(crypto: Crypto, trusted: set<Hash32>, m: SignedEntries, j: string, k: string) {
    && TrustedWithId(crypto, trusted, m, j, k)
    && forall x :: TrustedWithId(crypto, trusted, m, x, k) ==> m[j].entry.attestedAtSecs <= m[x].entry.attestedAtSecs
  }

  /** Where the trusted entry under key `j` stands in the list. */
  lemma TrustedAt(crypto: Crypto, trusted: set<Hash32>, m: SignedEntries, es: seq<BackingEntry>, ks: seq<string>,
                  j: string)
    returns (x: nat)
    requires EntriesUnder(es, ks, m) && Enumerates(ks, Verified(crypto, trusted, m).Keys)
    requires j in m && IsTrusted(crypto, trusted, m[j])
    ensures x < |es| && ks[x] == j && es[x] == m[j].entry
  {
    assert j in ks;
    x :| x < |ks| && ks[x] == j;
  }

  lemma OldestUnder(crypto: Crypto, trusted: set<Hash32>, m: SignedEntries, es: seq<BackingEntry>, ks: seq<string>,
                    i: nat, k: string)
    requires EntriesUnder(es, ks, m) && Enumerates(ks, Verified(crypto, trusted, m).Keys)
    requires i < |es| && es[i].sourceId == k
    requires forall x :: 0 <= x < |es| && SourceId(es[x]) == k ==> AttestedAt(es[i]) <= AttestedAt(es[x])
    ensures OldestTrusted(crypto, trusted, m, ks[i], k) && es[i] == m[ks[i]].entry
  {
    assert ks[i] in ks;
    forall j | TrustedWithId(crypto, trusted, m, j, k) ensures es[i].attestedAtSecs <= m[j].entry.attestedAtSecs {
      var x := TrustedAt(crypto, trusted, m, es, ks, j);
      assert SourceId(es[x]) == k;
    }
  }

  /** Of a keyed set the verified sources are exactly those a trusted key validly
      signed under that key, with the entry as signed. */
  lemma VerifiedWasSigned(crypto: Crypto, trusted: set<Hash32>, m: SignedEntries, k: string)
    ensures k in Verified(crypto, trusted, m) <==>
      k in m && m[k].validatorPubkey in trusted
      && crypto.verifies(m[k].validatorPubkey, crypto.sha256(DigestPreimage(m[k].entry, m[k].contentHash)),
                         m[k].signature)
    ensures k in Verified(crypto, trusted, m) ==> Verified(crypto, trusted, m)[k] == m[k].entry
  {}
}
