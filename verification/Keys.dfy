/** Batched key canonicalization (crates/perch-doc-compiler/src/lib.rs). The verifiers'
    `batch_canonicalize_key` is a parameter. */
module Keys {
  import opened Base
  import opened Text
  import opened Doc
  import opened Credentials

  type Bytes = seq<byte>

  /** One verifier call: the canonical form of each key, or a failed call. */
  type BatchOracle = (string, seq<Bytes>) -> Option<seq<Bytes>>

  datatype KeyError = DocInvalid | KeyNotCanonicalizable

  /** Where a signer's credential comes from: its own address, or a position in its
      verifier's batch. */
  datatype Slot = Slot(address: string, position: Option<nat>)

  // ----- specification -----

  predicate Readable(s: SignerDecl) {
    s.how.External? ==> HexDecode(s.how.key).Some?
  }

  predicate AllReadable(signers: seq<SignerDecl>) {
    forall i :: 0 <= i < |signers| ==> Readable(signers[i])
  }

  function KeyOf(s: SignerDecl): Bytes
    requires s.how.External? && Readable(s)
  {
    HexDecode(s.how.key).value
  }

  /** The keys declared under a verifier, in declaration order. */
  function Batch(signers: seq<SignerDecl>, v: string): seq<Bytes>
    requires AllReadable(signers)
  {
    if signers == [] then []
    else
      var init, s := Batch(signers[..|signers|-1], v), signers[|signers|-1];
      if s.how.External? && s.how.verifier == v then init + [KeyOf(s)] else init
  }

  function Verifiers(signers: seq<SignerDecl>): set<string> {
    set s | s in signers && s.how.External? :: s.how.verifier
  }

  function DeclaredCredential(s: SignerDecl): Credential<string>
    requires Readable(s)
  {
    CredentialOf(s.how).value
  }

  function DeclaredCredentials(signers: seq<SignerDecl>): (r: seq<Credential<string>>)
    requires AllReadable(signers)
    ensures |r| == |signers|
  {
    seq(|signers|, i requires 0 <= i < |signers| => DeclaredCredential(signers[i]))
  }

  function SlotOf(signers: seq<SignerDecl>, i: nat): Slot
    requires i < |signers| && AllReadable(signers[..i])
  {
    match signers[i].how
    case Delegated(a) => Slot(a, None)
    case External(v, _) => Slot(v, Some(|Batch(signers[..i], v)|))
  }

  /** Every verifier returns its batch unchanged. */
  ghost predicate BatchesFixed(signers: seq<SignerDecl>, oracle: BatchOracle)
    requires AllReadable(signers)
  {
    forall v :: v in Verifiers(signers) ==> oracle(v, Batch(signers, v)) == Some(Batch(signers, v))
  }

  // ----- the loops -----

  lemma {:induction false} BatchGrows(signers: seq<SignerDecl>, k: nat, v: string)
    requires AllReadable(signers) && k <= |signers|
    ensures Batch(signers[..k], v) <= Batch(signers, v)
  {
    hide Readable, KeyOf;
    if k == |signers| {
      assert signers[..k] == signers;
    } else {
      assert signers[..|signers|-1][..k] == signers[..k];
      BatchGrows(signers[..|signers|-1], k, v);
    }
  }

  /** A signer's slot finds its own key. */
  lemma SlotFindsKey(signers: seq<SignerDecl>, i: nat)
    requires AllReadable(signers) && i < |signers| && signers[i].how.External?
    ensures var v := signers[i].how.verifier;
            |Batch(signers[..i], v)| < |Batch(signers, v)| &&
              Batch(signers, v)[|Batch(signers[..i], v)|] == KeyOf(signers[i])
  {
    hide Readable, KeyOf;
    var v := signers[i].how.verifier;
    assert signers[..i+1][..i] == signers[..i];
    BatchGrows(signers, i + 1, v);
  }

  lemma BatchStep(signers: seq<SignerDecl>, k: nat, v: string)
    requires k < |signers| && AllReadable(signers[..k]) && Readable(signers[k])
    ensures AllReadable(signers[..k+1])
    ensures Batch(signers[..k+1], v) ==
            if signers[k].how.External? && signers[k].how.verifier == v
              then Batch(signers[..k], v) + [KeyOf(signers[k])]
            else Batch(signers[..k], v)
  {
    hide Readable, KeyOf;
    assert signers[..k+1][..k] == signers[..k];
  }

  lemma VerifiersStep(signers: seq<SignerDecl>, k: nat)
    requires k < |signers|
    ensures Verifiers(signers[..k+1]) ==
            Verifiers(signers[..k]) + if signers[k].how.External? then {signers[k].how.verifier} else {}
  {
    assert signers[..k+1] == signers[..k] + [signers[k]];
  }

  type Batches = map<string, seq<Bytes>>

  function BatchIn(batches: Batches, v: string): seq<Bytes> {
    if v in batches then batches[v] else []
  }

  /** The first `k` signers are grouped. */
  ghost predicate Grouped(signers: seq<SignerDecl>, k: nat, batches: Batches, slots: seq<Slot>) {
    && k <= |signers| && AllReadable(signers[..k])
    && batches.Keys == Verifiers(signers[..k])
    && (forall v :: BatchIn(batches, v) == Batch(signers[..k], v))
    && |slots| == k && (forall i :: 0 <= i < k ==> AllReadable(signers[..i]) && slots[i] == SlotOf(signers, i))
  }

  lemma NoneGrouped(signers: seq<SignerDecl>)
    ensures Grouped(signers, 0, map[], [])
  {
  }

  lemma DelegatedGrouped(signers: seq<SignerDecl>, k: nat, batches: Batches, slots: seq<Slot>)
    requires Grouped(signers, k, batches, slots) && k < |signers| && signers[k].how.Delegated?
    ensures Grouped(signers, k + 1, batches, slots + [Slot(signers[k].how.address, None)])
  {
    hide Batch, Verifiers, HexDecode;
    VerifiersStep(signers, k);
    BatchStep(signers, k, "");
    forall v ensures BatchIn(batches, v) == Batch(signers[..k+1], v) {
      BatchStep(signers, k, v);
    }
  }

  lemma ExternalGrouped(signers: seq<SignerDecl>, k: nat, batches: Batches, slots: seq<Slot>)
    requires Grouped(signers, k, batches, slots) && k < |signers| && signers[k].how.External? && Readable(signers[k])
    ensures var v := signers[k].how.verifier;
            var batch := BatchIn(batches, v);
            Grouped(signers, k + 1, batches[v := batch + [KeyOf(signers[k])]], slots + [Slot(v, Some(|batch|))])
  {
    hide Batch, Verifiers, HexDecode;
    var w := signers[k].how.verifier;
    var batches' := batches[w := BatchIn(batches, w) + [KeyOf(signers[k])]];
    VerifiersStep(signers, k);
    BatchStep(signers, k, "");
    forall v ensures BatchIn(batches', v) == Batch(signers[..k+1], v) {
      BatchStep(signers, k, v);
    }
  }

  /** Group external keys by verifier, remembering each signer's slot; give up at the
      first key that is not hex. */
  method GroupKeys(signers: seq<SignerDecl>) returns (ok: bool, batches: Batches, slots: seq<Slot>)
    ensures ok <==> AllReadable(signers)
    ensures ok ==> Grouped(signers, |signers|, batches, slots)
  {
    hide Grouped;
    ok, batches, slots := true, map[], [];
    NoneGrouped(signers);
    for k := 0 to |signers|
      invariant Grouped(signers, k, batches, slots)
      invariant forall i :: 0 <= i < k ==> Readable(signers[i])
    {
      match signers[k].how {
        case Delegated(a) =>
          DelegatedGrouped(signers, k, batches, slots);
          slots := slots + [Slot(a, None)];
        case External(v, key) =>
          var batch := BatchIn(batches, v);
          var decoded := HexDecode(key);
          if decoded.None? { return false, batches, slots; }
          ExternalGrouped(signers, k, batches, slots);
          slots := slots + [Slot(v, Some(|batch|))];
          batches := batches[v := batch + [decoded.value]];
      }
    }
  }

  /** Call each verifier once and refuse any batch that does not come back unchanged. */
  method CanonicalizeBatches(batches: Batches, oracle: BatchOracle)
    returns (r: Result<Batches, KeyError>)
    ensures r.Ok? <==> forall v :: v in batches ==> oracle(v, batches[v]) == Some(batches[v])
    ensures r.Ok? ==> r.value == batches
    ensures r.Err? ==> r.error == KeyNotCanonicalizable
  {
    var canonical: Batches := map[];
    var todo := batches.Keys;
    while todo != {}
      invariant todo <= batches.Keys && canonical.Keys == batches.Keys - todo
      invariant forall v :: v in canonical ==> canonical[v] == batches[v] && oracle(v, batches[v]) == Some(batches[v])
    {
      var v :| v in todo;
      var batch := batches[v];
      var keys := oracle(v, batch);
      if keys.None? || |keys.value| != |batch| { return Err(KeyNotCanonicalizable); }
      var same := SameKeys(batch, keys.value);
      if !same { return Err(KeyNotCanonicalizable); }
      canonical := canonical[v := keys.value];
      todo := todo - {v};
    }
    assert canonical == batches;
    return Ok(canonical);
  }

  method SameKeys(declared: seq<Bytes>, keys: seq<Bytes>) returns (same: bool)
    requires |declared| == |keys|
    ensures same <==> declared == keys
  {
    for i := 0 to |declared|
      invariant declared[..i] == keys[..i]
    {
      if declared[i] != keys[i] { return false; }
      assert declared[..i+1] == declared[..i] + [declared[i]] && keys[..i+1] == keys[..i] + [keys[i]];
    }
    assert declared[..|declared|] == declared && keys[..|keys|] == keys;
    return true;
  }

  lemma Declares(s: SignerDecl)
    requires Readable(s)
    ensures s.how.Delegated? ==> DeclaredCredential(s) == DelegatedTo(s.how.address)
    ensures s.how.External? ==> DeclaredCredential(s) == ExternalKey(s.how.verifier, KeyOf(s))
  {
  }

  /** Read each slot back. */
  method Scatter(signers: seq<SignerDecl>, canonical: Batches, slots: seq<Slot>) returns (out: seq<Credential<string>>)
    requires AllReadable(signers) && Grouped(signers, |signers|, canonical, slots)
    ensures out == DeclaredCredentials(signers)
  {
    hide Readable, KeyOf, Batch, Verifiers, DeclaredCredential;
    assert signers[..|signers|] == signers;
    out := [];
    for i := 0 to |slots|
      invariant |out| == i && forall k :: 0 <= k < i ==> out[k] == DeclaredCredential(signers[k])
    {
      Declares(signers[i]);
      match slots[i].position {
        case None =>
          out := out + [DelegatedTo(slots[i].address)];
        case Some(p) =>
          SlotFindsKey(signers, i);
          VerifierListed(signers, i);
          out := out + [ExternalKey(slots[i].address, canonical[slots[i].address][p])];
      }
    }
  }

  lemma VerifierListed(signers: seq<SignerDecl>, i: nat)
    requires i < |signers| && signers[i].how.External?
    ensures signers[i].how.verifier in Verifiers(signers)
  {
    assert signers[i] in signers;
  }

  /** Batching refines signer-by-signer reading: it succeeds exactly when every key is hex
      and every verifier returns its batch unchanged, and then it yields each signer's
      declared credential in declaration order. */
  method CanonicalCredentials(signers: seq<SignerDecl>, oracle: BatchOracle)
    returns (r: Result<seq<Credential<string>>, KeyError>)
    ensures r == Err(DocInvalid) <==> !AllReadable(signers)
    ensures r.Ok? <==> AllReadable(signers) && BatchesFixed(signers, oracle)
    ensures r.Ok? ==> r.value == DeclaredCredentials(signers)
  {
    hide AllReadable, Batch, Verifiers, DeclaredCredentials, SlotOf;
    assert signers[..|signers|] == signers;
    var ok, batches, slots := GroupKeys(signers);
    if !ok { return Err(DocInvalid); }
    var canonical := CanonicalizeBatches(batches, oracle);
    if canonical.Err? { return Err(canonical.error); }
    var out := Scatter(signers, canonical.value, slots);
    return Ok(out);
  }

  // ----- per-key canonicalizers -----

  type KeyCanonicalizer = (string, Bytes) -> Option<Bytes>

  function CanonicalizeEach(canon: KeyCanonicalizer, v: string, keys: seq<Bytes>): Option<seq<Bytes>> {
    if keys == [] then Some([])
    else
      var init :- CanonicalizeEach(canon, v, keys[..|keys|-1]);
      var last :- canon(v, keys[|keys|-1]);
      Some(init + [last])
  }

  /** The batch call of a verifier that canonicalizes key by key. */
  function Pointwise(canon: KeyCanonicalizer): BatchOracle {
    (v, keys) => CanonicalizeEach(canon, v, keys)
  }

  ghost predicate Fixed(canon: KeyCanonicalizer, v: string, keys: seq<Bytes>) {
    forall i :: 0 <= i < |keys| ==> canon(v, keys[i]) == Some(keys[i])
  }

  lemma {:induction false} EachFixed(canon: KeyCanonicalizer, v: string, keys: seq<Bytes>)
    ensures CanonicalizeEach(canon, v, keys).Some? ==> |CanonicalizeEach(canon, v, keys).value| == |keys|
    ensures CanonicalizeEach(canon, v, keys) == Some(keys) <==> Fixed(canon, v, keys)
  {
    if keys != [] {
      var init, last := keys[..|keys|-1], keys[|keys|-1];
      EachFixed(canon, v, init);
      assert keys == init + [last];
      assert Fixed(canon, v, keys) <==> Fixed(canon, v, init) && canon(v, last) == Some(last);
    }
  }

  lemma {:induction false} BatchMembers(signers: seq<SignerDecl>, v: string, key: Bytes)
    requires AllReadable(signers)
    ensures key in Batch(signers, v) <==>
            exists i :: 0 <= i < |signers| && signers[i].how.External? && signers[i].how.verifier == v &&
              KeyOf(signers[i]) == key
  {
    hide Readable, KeyOf;
    if signers != [] {
      var init := signers[..|signers|-1];
      BatchMembers(init, v, key);
      assert forall i :: 0 <= i < |init| ==> init[i] == signers[i];
    }
  }

  /** For per-key canonicalizers, batching succeeds exactly when every external key is its
      own canonical form. */
  lemma PointwiseIff(signers: seq<SignerDecl>, canon: KeyCanonicalizer)
    requires AllReadable(signers)
    ensures BatchesFixed(signers, Pointwise(canon)) <==>
            forall i :: 0 <= i < |signers| && signers[i].how.External? ==>
              canon(signers[i].how.verifier, KeyOf(signers[i])) == Some(KeyOf(signers[i]))
  {
    hide Readable, KeyOf, Batch;
    if BatchesFixed(signers, Pointwise(canon)) {
      forall i | 0 <= i < |signers| && signers[i].how.External?
        ensures canon(signers[i].how.verifier, KeyOf(signers[i])) == Some(KeyOf(signers[i]))
      {
        var v, key := signers[i].how.verifier, KeyOf(signers[i]);
        VerifierListed(signers, i);
        EachFixed(canon, v, Batch(signers, v));
        BatchMembers(signers, v, key);
        var j :| 0 <= j < |Batch(signers, v)| && Batch(signers, v)[j] == key;
      }
    }
    if forall i :: 0 <= i < |signers| && signers[i].how.External? ==>
         canon(signers[i].how.verifier, KeyOf(signers[i])) == Some(KeyOf(signers[i]))
    {
      forall v | v in Verifiers(signers) ensures Pointwise(canon)(v, Batch(signers, v)) == Some(Batch(signers, v)) {
        forall j | 0 <= j < |Batch(signers, v)| ensures canon(v, Batch(signers, v)[j]) == Some(Batch(signers, v)[j]) {
          BatchMembers(signers, v, Batch(signers, v)[j]);
        }
        EachFixed(canon, v, Batch(signers, v));
      }
    }
  }
}
