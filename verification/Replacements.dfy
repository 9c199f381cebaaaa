/** Credentials and replacement sets on the wire
    (crates/perch-recovery-interface/src/credential.rs). */
module Replacements {
  import opened Base
  import opened Credentials
  import opened Lex
  import opened Field
  import opened Wire
  import opened Text
  import opened Doc
  import Canon

  /** A credential on the wire: a key's length fits 32 bits. */
  type WireCredential = c: Credential<ChainAddress> | c.ExternalKey? ==> |c.key| <= U32_MAX
    witness DelegatedTo(Unsupported(0))

  datatype Replacement = Replacement(signerId: Blob, credential: WireCredential)

  datatype ZkEnrollment = ZkEnrollment(id: Bytes32, commitment: Bytes32)

  datatype ReplacementSet = ReplacementSet(signers: seq<Replacement>, zkEnrollment: seq<ZkEnrollment>)

  /** A host vector has a 32-bit length. */
  predicate Countable(s: ReplacementSet) {
    |s.signers| <= U32_MAX
  }

  // ----- encoding -----

  function TaggedAddress(a: ChainAddress): Option<seq<byte>> {
    match a
    case Account(key) => Some([0] + key)
    case Contract(id) => Some([1] + id)
    case Unsupported(_) => None
  }

  function Holder(c: WireCredential): ChainAddress {
    if c.DelegatedTo? then c.address else c.verifier
  }

  function EncodeCredential(c: WireCredential): Result<seq<byte>, StatementError> {
    match TaggedAddress(Holder(c))
    case None => Err(UnsupportedAddress)
    case Some(a) =>
      if c.DelegatedTo? then Ok([1] + a) else Ok([2] + a + BigEndian(|c.key|, 4) + c.key)
  }

  /** One replacement: the id, length first, then the credential. */
  function EncodeEntry(r: Replacement): Result<seq<byte>, StatementError> {
    var c :- EncodeCredential(r.credential);
    Ok(BigEndian(|r.signerId|, 4) + r.signerId + c)
  }

  /** `prev` sorts strictly before `id`, or there is no previous id. */
  predicate Follows(prev: Option<Blob>, id: Blob) {
    prev.Some? ==> LexLess(prev.value, id)
  }

  function EncodeEntries(rs: seq<Replacement>, prev: Option<Blob>): Result<seq<byte>, StatementError> {
    if rs == [] then Ok([])
    else if !Follows(prev, rs[0].signerId) then Err(ReplacementsNotCanonical)
    else
      var entry :- EncodeEntry(rs[0]);
      var rest :- EncodeEntries(rs[1..], Some(rs[0].signerId));
      Ok(entry + rest)
  }

  function EncodeZk(zk: seq<ZkEnrollment>): Result<seq<byte>, StatementError> {
    if |zk| == 0 then Ok([0])
    else if |zk| == 1 then Ok([1] + zk[0].id + zk[0].commitment)
    else Err(ReplacementsNotCanonical)
  }

  function EncodeSet(s: ReplacementSet): Result<seq<byte>, StatementError>
    requires Countable(s)
  {
    var entries :- EncodeEntries(s.signers, None);
    var zk :- EncodeZk(s.zkEnrollment);
    Ok(BigEndian(|s.signers|, 4) + entries + zk)
  }

  method WriteCredential(c: WireCredential) returns (r: Result<seq<byte>, StatementError>)
    ensures r == EncodeCredential(c)
  {
    var out: seq<byte>;
    match c {
      case DelegatedTo(address) =>
        out := [1];
        var a := TaggedAddress(address);
        if a.None? { return Err(UnsupportedAddress); }
        out := out + a.value;
      case ExternalKey(verifier, key) =>
        out := [2];
        var v := TaggedAddress(verifier);
        if v.None? { return Err(UnsupportedAddress); }
        out := out + v.value;
        out := out + BigEndian(|key|, 4);
        out := out + key;
    }
    return Ok(out);
  }

  function Prepend(done: seq<byte>, r: Result<seq<byte>, StatementError>): Result<seq<byte>, StatementError> {
    match r case Ok(bs) => Ok(done + bs) case Err(e) => Err(e)
  }

  lemma EntriesStep(done: seq<byte>, rs: seq<Replacement>, prev: Option<Blob>, c: seq<byte>)
    requires rs != [] && Follows(prev, rs[0].signerId) && EncodeCredential(rs[0].credential) == Ok(c)
    ensures Prepend(done, EncodeEntries(rs, prev)) ==
            Prepend(done + BigEndian(|rs[0].signerId|, 4) + rs[0].signerId + c,
                    EncodeEntries(rs[1..], Some(rs[0].signerId)))
  {
    hide BigEndian, EncodeCredential, LexLess;
    var entry := BigEndian(|rs[0].signerId|, 4) + rs[0].signerId + c;
    var rest := EncodeEntries(rs[1..], Some(rs[0].signerId));
    assert done + BigEndian(|rs[0].signerId|, 4) + rs[0].signerId + c == done + entry;
    if rest.Ok? { assert done + (entry + rest.value) == done + entry + rest.value; }
  }

  method WriteSet(s: ReplacementSet) returns (r: Result<seq<byte>, StatementError>)
    requires Countable(s)
    ensures r == EncodeSet(s)
  {
    hide EncodeCredential, BigEndian;
    ghost var count := BigEndian(|s.signers|, 4);
    var out: seq<byte> := BigEndian(|s.signers|, 4);
    var prev: Option<Blob> := None;
    assert s.signers[0..] == s.signers;
    for k := 0 to |s.signers|
      invariant Prepend(count, EncodeEntries(s.signers, None)) == Prepend(out, EncodeEntries(s.signers[k..], prev))
    {
      ghost var todo := s.signers[k..];
      assert todo[0] == s.signers[k] && todo[1..] == s.signers[k+1..];
      var id := s.signers[k].signerId;
      if prev.Some? {
        var lt := BytesLt(prev.value, id);
        if !lt { return Err(ReplacementsNotCanonical); }
      }
      var c := WriteCredential(s.signers[k].credential);
      if c.Err? { return Err(c.error); }
      EntriesStep(out, todo, prev, c.value);
      out := out + BigEndian(|id|, 4);
      out := out + id;
      out := out + c.value;
      prev := Some(id);
    }
    assert s.signers[|s.signers|..] == [];
    assert out + [] == out;
    if |s.zkEnrollment| == 0 { return Ok(out + [0]); }
    if |s.zkEnrollment| > 1 { return Err(ReplacementsNotCanonical); }
    var z := s.zkEnrollment[0];
    assert out + ([1] + z.id + z.commitment) == out + [1] + z.id + z.commitment;
    return Ok(out + [1] + z.id + z.commitment);
  }

  // ----- decoding -----

  datatype Parsed<+T> = Parsed(value: T, rest: seq<byte>)

  function ParseBlob(bytes: seq<byte>): Option<Parsed<Blob>> {
    if |bytes| < 4 then None
    else
      var n := Word4(bytes[..4]);
      if |bytes| - 4 < n then None
      else
        var blob: Blob := bytes[4..4 + n];
        Some(Parsed(blob, bytes[4 + n..]))
  }

  function ParseAddress(bytes: seq<byte>): Option<Parsed<ChainAddress>> {
    if |bytes| < 33 then None
    else if bytes[0] == 0 then Some(Parsed(Account(bytes[1..33]), bytes[33..]))
    else if bytes[0] == 1 then Some(Parsed(Contract(bytes[1..33]), bytes[33..]))
    else None
  }

  function ParseCredential(bytes: seq<byte>): Option<Parsed<WireCredential>> {
    if bytes == [] then None
    else
      var a :- ParseAddress(bytes[1..]);
      if bytes[0] == 1 then Some(Parsed(DelegatedTo(a.value), a.rest))
      else if bytes[0] == 2 then
        var key :- ParseBlob(a.rest);
        Some(Parsed(ExternalKey(a.value, key.value), key.rest))
      else None
  }

  function ParseEntry(bytes: seq<byte>): Option<Parsed<Replacement>> {
    var id :- ParseBlob(bytes);
    var c :- ParseCredential(id.rest);
    Some(Parsed(Replacement(id.value, c.value), c.rest))
  }

  function ParseEntries(n: nat, bytes: seq<byte>): Option<Parsed<seq<Replacement>>> {
    if n == 0 then Some(Parsed([], bytes))
    else
      var first :- ParseEntry(bytes);
      var more :- ParseEntries(n - 1, first.rest);
      Some(Parsed([first.value] + more.value, more.rest))
  }

  function ParseZk(bytes: seq<byte>): Option<seq<ZkEnrollment>> {
    if bytes == [0] then Some([])
    else if |bytes| == 65 && bytes[0] == 1 then Some([ZkEnrollment(bytes[1..33], bytes[33..])])
    else None
  }

  function DecodeSet(bytes: seq<byte>): Option<ReplacementSet> {
    if |bytes| < 4 then None
    else
      var entries :- ParseEntries(Word4(bytes[..4]), bytes[4..]);
      var zk :- ParseZk(entries.rest);
      Some(ReplacementSet(entries.value, zk))
  }

  lemma BlobRoundTrip(b: Blob, rest: seq<byte>)
    ensures ParseBlob(BigEndian(|b|, 4) + b + rest) == Some(Parsed(b, rest))
  {
    hide BigEndian, Word4;
    WordRoundTrips(|b|, 0);
    var bytes := BigEndian(|b|, 4) + b + rest;
    assert bytes[..4] == BigEndian(|b|, 4);
    assert bytes[4..4 + |b|] == b && bytes[4 + |b|..] == rest;
  }

  lemma AddressRoundTrip(a: ChainAddress, rest: seq<byte>)
    requires TaggedAddress(a).Some?
    ensures ParseAddress(TaggedAddress(a).value + rest) == Some(Parsed(a, rest))
  {
    var bytes := TaggedAddress(a).value + rest;
    assert bytes[33..] == rest;
    assert bytes[1..33] == if a.Account? then a.key else a.id;
  }

  lemma CredentialRoundTrip(c: WireCredential, rest: seq<byte>)
    requires EncodeCredential(c).Ok?
    ensures ParseCredential(EncodeCredential(c).value + rest) == Some(Parsed(c, rest))
  {
    hide TaggedAddress, ParseAddress, ParseBlob, BigEndian;
    var a := TaggedAddress(Holder(c)).value;
    var tail := if c.DelegatedTo? then rest else BigEndian(|c.key|, 4) + c.key + rest;
    var bytes := EncodeCredential(c).value + rest;
    assert bytes == [if c.DelegatedTo? then 1 else 2] + (a + tail);
    AddressRoundTrip(Holder(c), tail);
    assert bytes[1..] == a + tail;
    if c.ExternalKey? { BlobRoundTrip(c.key, rest); }
  }

  lemma EntryRoundTrip(r: Replacement, rest: seq<byte>)
    requires EncodeEntry(r).Ok?
    ensures ParseEntry(EncodeEntry(r).value + rest) == Some(Parsed(r, rest))
  {
    hide EncodeCredential, ParseCredential, ParseBlob, BigEndian;
    var c := EncodeCredential(r.credential).value;
    assert EncodeEntry(r).value + rest == BigEndian(|r.signerId|, 4) + r.signerId + (c + rest);
    BlobRoundTrip(r.signerId, c + rest);
    CredentialRoundTrip(r.credential, rest);
  }

  lemma {:induction false} EntriesRoundTrip(rs: seq<Replacement>, prev: Option<Blob>, rest: seq<byte>)
    requires EncodeEntries(rs, prev).Ok?
    ensures ParseEntries(|rs|, EncodeEntries(rs, prev).value + rest) == Some(Parsed(rs, rest))
  {
    hide EncodeEntry, ParseEntry, Follows;
    if rs == [] {
      assert [] + rest == rest;
    } else {
      var entry, more := EncodeEntry(rs[0]).value, EncodeEntries(rs[1..], Some(rs[0].signerId)).value;
      assert entry + more + rest == entry + (more + rest);
      EntryRoundTrip(rs[0], more + rest);
      EntriesRoundTrip(rs[1..], Some(rs[0].signerId), rest);
      assert [rs[0]] + rs[1..] == rs;
    }
  }

  lemma ZkRoundTrip(zk: seq<ZkEnrollment>)
    requires EncodeZk(zk).Ok?
    ensures ParseZk(EncodeZk(zk).value) == Some(zk)
  {
    if |zk| == 1 {
      var bytes := [1] + zk[0].id + zk[0].commitment;
      assert bytes[1..33] == zk[0].id && bytes[33..] == zk[0].commitment;
      assert zk == [zk[0]];
    }
  }

  /** Decoding an encoded set gives it back, whatever the lengths of ids and keys. */
  lemma SetRoundTrip(s: ReplacementSet)
    requires Countable(s) && EncodeSet(s).Ok?
    ensures DecodeSet(EncodeSet(s).value) == Some(s)
  {
    hide EncodeEntries, ParseEntries, BigEndian, EncodeZk, ParseZk, Word4;
    var entries, zk := EncodeEntries(s.signers, None).value, EncodeZk(s.zkEnrollment).value;
    var bytes := EncodeSet(s).value;
    assert bytes[..4] == BigEndian(|s.signers|, 4) && bytes[4..] == entries + zk;
    WordRoundTrips(|s.signers|, 0);
    EntriesRoundTrip(s.signers, None, zk);
    ZkRoundTrip(s.zkEnrollment);
  }

  lemma SetInjective(s: ReplacementSet, t: ReplacementSet)
    requires Countable(s) && Countable(t) && EncodeSet(s).Ok? && EncodeSet(s) == EncodeSet(t)
    ensures s == t
  {
    SetRoundTrip(s);
    SetRoundTrip(t);
  }

  lemma CredentialInjective(c: WireCredential, d: WireCredential)
    requires EncodeCredential(c).Ok? && EncodeCredential(c) == EncodeCredential(d)
    ensures c == d
  {
    CredentialRoundTrip(c, []);
    CredentialRoundTrip(d, []);
  }

  // ----- one order only -----

  ghost predicate Ascending(rs: seq<Replacement>) {
    forall i, j :: 0 <= i < j < |rs| ==> LexLess(rs[i].signerId, rs[j].signerId)
  }

  predicate Supported(rs: seq<Replacement>) {
    forall i :: 0 <= i < |rs| ==> EncodeCredential(rs[i].credential).Ok?
  }

  lemma {:induction false} EntriesIff(rs: seq<Replacement>, prev: Option<Blob>)
    ensures EncodeEntries(rs, prev).Ok? <==>
            Supported(rs) && Ascending(rs) && forall i :: 0 <= i < |rs| ==> Follows(prev, rs[i].signerId)
  {
    hide EncodeCredential, BigEndian;
    if rs != [] {
      EntriesIff(rs[1..], Some(rs[0].signerId));
      assert forall i :: 1 <= i < |rs| ==> rs[i] == rs[1..][i-1];
      assert Supported(rs) <==> EncodeEntry(rs[0]).Ok? && Supported(rs[1..]) by {
        assert Supported(rs) ==> forall i :: 0 <= i < |rs| - 1 ==> EncodeCredential(rs[1..][i].credential).Ok?;
      }
      assert Ascending(rs) <==>
             Ascending(rs[1..]) && forall i :: 0 <= i < |rs| - 1 ==> LexLess(rs[0].signerId, rs[1..][i].signerId);
      if prev.Some? && LexLess(prev.value, rs[0].signerId) {
        forall i | 1 <= i < |rs| && LexLess(rs[0].signerId, rs[i].signerId)
          ensures LexLess(prev.value, rs[i].signerId)
        {
          LexTransitive(prev.value, rs[0].signerId, rs[i].signerId);
        }
      }
    }
  }

  /** A set has an encoding exactly when its addresses are supported, its ids strictly
      ascend and it rotates at most one enrollment. */
  lemma EncodableIff(s: ReplacementSet)
    requires Countable(s)
    ensures EncodeSet(s).Ok? <==> Supported(s.signers) && Ascending(s.signers) && |s.zkEnrollment| <= 1
  {
    EntriesIff(s.signers, None);
  }

  function ById(): (Replacement, Replacement) -> bool {
    (r: Replacement, q: Replacement) => LexLess(r.signerId, q.signerId)
  }

  lemma ByIdIsOrder()
    ensures StrictOrder(ById())
  {
    hide LexLess;
    forall r: Replacement ensures !ById()(r, r) { LexIrreflexive(r.signerId); }
    forall p: Replacement, q: Replacement, r: Replacement | ById()(p, q) && ById()(q, r) ensures ById()(p, r) {
      LexTransitive(p.signerId, q.signerId, r.signerId);
    }
  }

  /** Two accepted sets with the same members are the same sequence, so a set of
      replacements has one encoding. */
  lemma SameMembersSameSet(s: ReplacementSet, t: ReplacementSet)
    requires Countable(s) && Countable(t) && EncodeSet(s).Ok? && EncodeSet(t).Ok?
    requires forall r :: r in s.signers <==> r in t.signers
    requires forall z :: z in s.zkEnrollment <==> z in t.zkEnrollment
    ensures s == t
  {
    EncodableIff(s);
    EncodableIff(t);
    ByIdIsOrder();
    SortedUnique(s.signers, t.signers, ById());
    var x, y := s.zkEnrollment, t.zkEnrollment;
    assert |x| == 1 ==> x[0] in x;
    assert |y| == 1 ==> y[0] in y;
    assert x == y;
  }

  // ----- domain separation -----

  function CredentialTag(): (tag: seq<byte>) ensures |tag| == 25 { Ascii("perch/recovery/credential") }
  function ReplacementsTag(): (tag: seq<byte>) ensures |tag| == 27 { Ascii("perch/recovery/replacements") }
  function ConfigTag(): (tag: seq<byte>) ensures |tag| == 21 { Ascii("perch/recovery/config") }
  function RuleTag(): (tag: seq<byte>) ensures |tag| == 10 { Ascii("perch/rule") }

  lemma TagBytes()
    ensures StatementTag()[7] == CredentialTag()[7] == ReplacementsTag()[7] == ConfigTag()[7] == 'e' as int
    ensures RuleTag()[7] == 'u' as int
    ensures StatementTag()[15] == 's' as int && ReplacementsTag()[15] == 'r' as int
    ensures CredentialTag()[15] == ConfigTag()[15] == 'c' as int
    ensures CredentialTag()[16] == 'r' as int && ConfigTag()[16] == 'o' as int
  {
  }

  /** Byte strings that start differently are different. */
  lemma Differ(s: seq<byte>, t: seq<byte>, k: nat, x: seq<byte>, y: seq<byte>)
    requires k < |s| && k < |t| && s[k] != t[k]
    ensures s + x != t + y
  {
    assert (s + x)[k] == s[k] && (t + y)[k] == t[k];
  }

  lemma FirstBytes()
    ensures StatementTag()[0] == CredentialTag()[0] == ReplacementsTag()[0] == ConfigTag()[0] == RuleTag()[0] ==
            'p' as int
  {
  }

  /** A document is hashed without a tag, as its canonical text. */
  function DocPreimage(doc: PolicyDoc): seq<byte> {
    Utf8(Canon.CanonicalJson(doc))
  }

  lemma DocPreimageBrace(doc: PolicyDoc)
    ensures DocPreimage(doc) != [] && DocPreimage(doc)[0] == '{' as int
  {
    hide Canon.Join, Canon.MemberTexts, Canon.NormMembers, Canon.SortMembers, Canon.Members;
    assert Canon.CanonicalJson(doc)[0] == '{';
  }

  lemma {:induction false} Utf8OfAscii(s: string, t: string)
    requires forall i :: 0 <= i < |s| ==> s[i] < 128 as char
    ensures Utf8(s + t) == Ascii(s) + Utf8(t)
  {
    if s == [] {
      assert s + t == t && Ascii(s) + Utf8(t) == Utf8(t);
    } else {
      Utf8OfAscii(s[1..], t);
      assert (s + t)[1..] == s[1..] + t;
      assert Ascii(s) == [s[0] as int] + Ascii(s[1..]);
    }
  }

  /** What a rule's provenance hash is taken of carries the rule tag. */
  lemma RuleTagged(rule: Rule)
    ensures Utf8(Canon.RulePreimage(rule)) == RuleTag() + Utf8(Canon.RuleCanonicalJson(rule))
  {
    hide Utf8, Ascii, Canon.RuleCanonicalJson;
    Utf8OfAscii("perch/rule", Canon.RuleCanonicalJson(rule));
  }

  /** No hashed preimage of one kind is a preimage of another: the five tags separate
      statements, credentials, replacement sets, configurations and rules, and none of
      them starts as a document does. */
  lemma DomainsSeparate(x: seq<byte>, y: seq<byte>, doc: PolicyDoc)
    ensures StatementTag() + x != CredentialTag() + y && StatementTag() + x != ReplacementsTag() + y
    ensures StatementTag() + x != ConfigTag() + y && StatementTag() + x != RuleTag() + y
    ensures CredentialTag() + x != ReplacementsTag() + y && CredentialTag() + x != ConfigTag() + y
    ensures CredentialTag() + x != RuleTag() + y && ReplacementsTag() + x != ConfigTag() + y
    ensures ReplacementsTag() + x != RuleTag() + y && ConfigTag() + x != RuleTag() + y
    ensures DocPreimage(doc) !in
            {StatementTag() + x, CredentialTag() + x, ReplacementsTag() + x, ConfigTag() + x, RuleTag() + x}
  {
    hide StatementTag, CredentialTag, ReplacementsTag, ConfigTag, RuleTag, DocPreimage;
    DocPreimageBrace(doc);
    FirstBytes();
    TagBytes();
    Differ(StatementTag(), CredentialTag(), 15, x, y);
    Differ(StatementTag(), ReplacementsTag(), 15, x, y);
    Differ(StatementTag(), ConfigTag(), 15, x, y);
    Differ(StatementTag(), RuleTag(), 7, x, y);
    Differ(CredentialTag(), ReplacementsTag(), 15, x, y);
    Differ(CredentialTag(), ConfigTag(), 16, x, y);
    Differ(CredentialTag(), RuleTag(), 7, x, y);
    Differ(ReplacementsTag(), ConfigTag(), 15, x, y);
    Differ(ReplacementsTag(), RuleTag(), 7, x, y);
    Differ(ConfigTag(), RuleTag(), 7, x, y);
  }
}
