/** Agent memory over the same commitment (examples/memory_freshness.rs): the
    source set is hashed as a sorted list of length-prefixed records. */
module AgentMemory {
  import opened Types
  import opened Sequences
  import opened Text
  import opened Hashing
  import opened Anchor
  import opened Commitment
  import opened Renewal

  /** A Rust string: its byte length is a u64. */
  type Str = s: string | |Utf8(s)| < TWO_64 witness ""

  datatype Source = Source(id: Str, content: string)

  datatype Record = Record(id: Str, contentHash: Hash32)

  predicate IdLeq(a: Record, b: Record) {
    StrLeq(a.id, b.id)
  }

  function RecordOf(crypto: Crypto, s: Source): Record {
    Record(s.id, crypto.sha256(Utf8(s.content)))
  }

  function Records(crypto: Crypto, sources: seq<Source>): (r: seq<Record>)
    ensures |r| == |sources| && forall i :: 0 <= i < |r| ==> r[i] == RecordOf(crypto, sources[i])
  {
    seq(|sources|, i requires 0 <= i < |sources| => RecordOf(crypto, sources[i]))
  }

  function RecordBytes(r: Record): seq<Byte> {
    LE64(|Utf8(r.id)|) + (Utf8(r.id) + r.contentHash)
  }

  function RecordListBytes(rs: seq<Record>): seq<Byte> {
    if |rs| == 0 then [] else RecordBytes(rs[0]) + RecordListBytes(rs[1..])
  }

  function Preimage(records: seq<Record>): seq<Byte> {
    RecordListBytes(Sort(records, IdLeq))
  }

  function SourceSetRoot(crypto: Crypto, sources: seq<Source>): Hash32 {
    crypto.sha256(Preimage(Records(crypto, sources)))
  }

  /** `source_set_root`: sort the pairs, then feed them record by record. */
  method ComputeSourceSetRoot(crypto: Crypto, sources: seq<Source>) returns (root: Hash32)
    ensures root == SourceSetRoot(crypto, sources)
  {
    var pairs := Sort(Records(crypto, sources), IdLeq);
    var h := new Hasher();
    for i := 0 to |pairs|
      invariant h.fed + RecordListBytes(pairs[i..]) == RecordListBytes(pairs)
    {
      var r := pairs[i];
      assert pairs[i..][0] == r && pairs[i..][1..] == pairs[i+1..];
      Append(h.fed, RecordBytes(r), RecordListBytes(pairs[i+1..]));
      FeedRecord(h, r);
    }
    assert h.fed + [] == h.fed;
    root := h.Finalize(crypto);
  }

  method FeedRecord(h: Hasher, r: Record)
    modifies h
    ensures h.fed == old(h.fed) + RecordBytes(r)
  {
    Append(h.fed + LE64(|Utf8(r.id)|), Utf8(r.id), r.contentHash);
    Append(h.fed, LE64(|Utf8(r.id)|), Utf8(r.id) + r.contentHash);
    h.Update(LE64(|Utf8(r.id)|));
    h.Update(Utf8(r.id));
    h.Update(r.contentHash);
  }

  // ---------- the record list is unambiguous ----------

  lemma RecordCut(a: Record, b: Record, s: seq<Byte>, t: seq<Byte>)
    requires RecordBytes(a) + s == RecordBytes(b) + t
    ensures a == b && s == t
  {
    var x, y := Utf8(a.id), Utf8(b.id);
    Append(LE64(|x|), x + a.contentHash, s);
    Append(LE64(|y|), y + b.contentHash, t);
    Split(LE64(|x|), (x + a.contentHash) + s, LE64(|y|), (y + b.contentHash) + t);
    LE64Injective(|x|, |y|);
    Split(x + a.contentHash, s, y + b.contentHash, t);
    Split(x, a.contentHash, y, b.contentHash);
    Utf8Injective(a.id, b.id);
  }

  /** A record: eight bytes of length, the id, and the hash of the content. */
  lemma RecordLayout(crypto: Crypto, s: Source)
    ensures var p, id := RecordBytes(RecordOf(crypto, s)), Utf8(s.id);
      && At(p, 0, LE64(|id|)) && At(p, 8, id) && At(p, 8 + |id|, crypto.sha256(Utf8(s.content)))
      && |p| == 40 + |id|
  {
    var id, h := Utf8(s.id), crypto.sha256(Utf8(s.content));
    AtHead(id, h);
    assert At(h, 0, h);
    AtTail(id, h, 0, h);
    AtHead(LE64(|id|), id + h);
    AtTail(LE64(|id|), id + h, 0, id);
    AtTail(LE64(|id|), id + h, |id|, h);
  }

  /** The records are hashed in increasing order of id. */
  lemma PreimageAscends(rs: seq<Record>) returns (sorted: seq<Record>)
    ensures Preimage(rs) == RecordListBytes(sorted) && multiset(sorted) == multiset(rs)
    ensures forall i, j :: 0 <= i < j < |sorted| ==> StrLeq(sorted[i].id, sorted[j].id)
  {
    sorted := Sort(rs, IdLeq);
    IdOrder();
    SortSorts(rs, IdLeq);
  }

  /** Any number of records is read back in one way only. */
  lemma {:induction false} RecordListInjective(xs: seq<Record>, ys: seq<Record>)
    requires RecordListBytes(xs) == RecordListBytes(ys)
    ensures xs == ys
  {
    if |xs| == 0 || |ys| == 0 {
    } else {
      RecordCut(xs[0], ys[0], RecordListBytes(xs[1..]), RecordListBytes(ys[1..]));
      RecordListInjective(xs[1..], ys[1..]);
      assert xs == [xs[0]] + xs[1..] && ys == [ys[0]] + ys[1..];
    }
  }

  lemma IdOrder()
    ensures TotalPreorder(IdLeq)
  {
    StrOrder();
  }

  /** Equal preimages come from the same records, whatever their order. */
  lemma PreimageCommitsToRecords(xs: seq<Record>, ys: seq<Record>)
    requires Preimage(xs) == Preimage(ys)
    ensures multiset(xs) == multiset(ys)
  {
    IdOrder();
    RecordListInjective(Sort(xs, IdLeq), Sort(ys, IdLeq));
    SortSorts(xs, IdLeq);
    SortSorts(ys, IdLeq);
  }

  ghost predicate SharedIdsAgree(rs: seq<Record>) {
    forall i, j :: 0 <= i < |rs| && 0 <= j < |rs| && rs[i].id == rs[j].id ==> rs[i] == rs[j]
  }

  lemma TiedIds(a: Record, b: Record)
    ensures Ties(a, b, IdLeq) <==> a.id == b.id
  {
    StrOrder();
    if Ties(a, b, IdLeq) { StrAntisymmetric(a.id, b.id); }
    assert StrLeq(a.id, a.id);
  }

  lemma SameRecords(a: seq<Record>, b: seq<Record>, view: Record -> Record)
    requires forall r :: view(r) == r
    ensures SameView(a, b, view) <==> a == b
  {
    if SameView(a, b, view) {
      assert forall i :: 0 <= i < |a| ==> view(a[i]) == view(b[i]);
    }
  }

  /** The preimage is independent of presentation order exactly when records
      sharing an id are identical; distinct ids are the common case. */
  lemma PreimageIgnoresOrderIff(rs: seq<Record>)
    ensures (forall ys :: multiset(ys) == multiset(rs) ==> Preimage(ys) == Preimage(rs)) <==> SharedIdsAgree(rs)
  {
    IdOrder();
    var view := (r: Record) => r;
    forall a, b ensures Ties(a, b, IdLeq) <==> a.id == b.id { TiedIds(a, b); }
    if SharedIdsAgree(rs) {
      assert TiesAgree(rs, IdLeq, view);
      forall ys | multiset(ys) == multiset(rs) ensures Preimage(ys) == Preimage(rs) {
        SortedViewIgnoresOrder(rs, ys, IdLeq, view);
        SameRecords(Sort(rs, IdLeq), Sort(ys, IdLeq), view);
      }
    } else {
      var i, j :| 0 <= i < |rs| && 0 <= j < |rs| && rs[i].id == rs[j].id && rs[i] != rs[j];
      assert Ties(rs[i], rs[j], IdLeq) && view(rs[i]) != view(rs[j]);
      OrderIndependentIffTiesAgree(rs, IdLeq, view);
      var ys :| multiset(ys) == multiset(rs) && !SameView(Sort(ys, IdLeq), Sort(rs, IdLeq), view);
      SameRecords(Sort(ys, IdLeq), Sort(rs, IdLeq), view);
      if Preimage(ys) == Preimage(rs) {
        RecordListInjective(Sort(ys, IdLeq), Sort(rs, IdLeq));
      }
    }
  }

  // ---------- reading a memory ----------

  /** `read`: the fact is always served; only its verdict ages. */
  function Read(attestation: FreshnessCommitment, currentRoot: Hash32, now: TripleAnchor,
                th: Thresholds): RenewalOutcome {
    Evaluate(attestation, currentRoot, now, th)
  }

  /** A changed memory is protected exactly while its window lasts. */
  lemma ReadMeans(attestation: FreshnessCommitment, currentRoot: Hash32, now: TripleAnchor, th: Thresholds)
    ensures Read(attestation, currentRoot, now, th) == StillValid <==> attestation.contextRoot == currentRoot
    ensures Read(attestation, currentRoot, now, th) == ProtectedByProspectiveOnly <==>
      && attestation.contextRoot != currentRoot
      && attestation.anchor.blockHeight <= now.blockHeight <= attestation.anchor.blockHeight + th.maxFsBlocks
  {
    EvaluateMeans(attestation, currentRoot, now, th);
  }

  /** Barring a collision, a memory attested against sources whose shared ids
      agree reads StillValid exactly while the current sources are the same
      records in some order. */
  lemma StillValidIffSourcesUnchanged(crypto: Crypto, attestation: FreshnessCommitment, attested: seq<Source>,
                                      current: seq<Source>, now: TripleAnchor, th: Thresholds)
    requires attestation.contextRoot == SourceSetRoot(crypto, attested)
    requires SharedIdsAgree(Records(crypto, attested))
    requires crypto.NoCollision(Preimage(Records(crypto, attested)), Preimage(Records(crypto, current)))
    ensures Read(attestation, SourceSetRoot(crypto, current), now, th) == StillValid
       <==> multiset(Records(crypto, attested)) == multiset(Records(crypto, current))
  {
    if SourceSetRoot(crypto, attested) == SourceSetRoot(crypto, current) {
      PreimageCommitsToRecords(Records(crypto, attested), Records(crypto, current));
    }
    if multiset(Records(crypto, attested)) == multiset(Records(crypto, current)) {
      PreimageIgnoresOrderIff(Records(crypto, attested));
    }
  }

  /** No content of one list collides with a different content of the other. */
  ghost predicate ContentsApart(crypto: Crypto, xs: seq<Source>, ys: seq<Source>) {
    forall i, j :: 0 <= i < |xs| && 0 <= j < |ys| ==>
      crypto.NoCollision(Utf8(xs[i].content), Utf8(ys[j].content))
  }

  lemma RecordsSeparate(crypto: Crypto, xs: seq<Source>, ys: seq<Source>)
    requires ContentsApart(crypto, xs, ys)
    ensures multiset(Records(crypto, xs)) == multiset(Records(crypto, ys)) <==> multiset(xs) == multiset(ys)
  {
    var f := (s: Source) => RecordOf(crypto, s);
    assert Records(crypto, xs) == Map(f, xs) && Records(crypto, ys) == Map(f, ys);
    if multiset(xs) == multiset(ys) {
      MapPermutes(f, xs, ys);
    }
    if multiset(Records(crypto, xs)) == multiset(Records(crypto, ys)) {
      forall i, j | 0 <= i < |xs| && 0 <= j < |ys| && f(xs[i]) == f(ys[j]) ensures xs[i] == ys[j] {
        Utf8Injective(xs[i].content, ys[j].content);
      }
      MapPermutesBack(f, xs, ys);
    }
  }

  /** Barring collisions of the contents and of the two preimages, a memory
      attested against sources whose shared ids agree reads StillValid exactly
      while the same ids carry the same contents, in some order. */
  lemma StillValidIffContentsUnchanged(crypto: Crypto, attestation: FreshnessCommitment, attested: seq<Source>,
                                       current: seq<Source>, now: TripleAnchor, th: Thresholds)
    requires attestation.contextRoot == SourceSetRoot(crypto, attested)
    requires SharedIdsAgree(Records(crypto, attested))
    requires crypto.NoCollision(Preimage(Records(crypto, attested)), Preimage(Records(crypto, current)))
    requires ContentsApart(crypto, attested, current)
    ensures Read(attestation, SourceSetRoot(crypto, current), now, th) == StillValid
       <==> multiset(attested) == multiset(current)
  {
    StillValidIffSourcesUnchanged(crypto, attestation, attested, current, now, th);
    RecordsSeparate(crypto, attested, current);
  }
}
