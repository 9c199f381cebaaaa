/** The canonical form (crates/perch-ir/src/canon.rs): documents become small value
    trees, and value trees become RFC 8785 text. */
module Canon {
  import opened Base
  import opened Text
  import opened Lex
  import opened Doc

  /** Exactly the JSON shapes a document produces. */
  datatype Cv =
    | Str(s: string)
    | U32(n: u32)
    | Arr(items: seq<Cv>)
    | Obj(members: seq<Member>)

  datatype Member = Member(key: string, val: Cv)

  // ----- documents to value trees -----

  /** The object with these members, absent ones omitted (never written as null). */
  function Record(keys: seq<string>, vals: seq<Option<Cv>>): Cv
    requires |keys| == |vals|
  {
    Obj(Members(keys, vals))
  }

  function Members(keys: seq<string>, vals: seq<Option<Cv>>): seq<Member>
    requires |keys| == |vals|
  {
    if keys == [] then []
    else
      var n := |keys| - 1;
      Members(keys[..n], vals[..n]) + (match vals[n] case Some(v) => [Member(keys[n], v)] case None => [])
  }

  function OfStr(s: string): Option<Cv> { Some(Str(s)) }
  function OfU32(n: u32): Option<Cv> { Some(U32(n)) }
  function OfStrs(ss: seq<string>): Option<Cv> { Some(Arr(Strs(ss))) }

  function OptStr(o: Option<string>): Option<Cv> { match o case Some(s) => OfStr(s) case None => None }
  function OptU32(o: Option<u32>): Option<Cv> { match o case Some(n) => OfU32(n) case None => None }
  function OptStrs(o: Option<seq<string>>): Option<Cv> { match o case Some(ss) => OfStrs(ss) case None => None }
  function OptCap(o: Option<CapConstraint>): Option<Cv> { match o case Some(c) => Some(CapToCv(c)) case None => None }

  function OptBaseline(o: Option<string>): Option<Cv> {
    match o case Some(h) => Some(BaselineToCv(h)) case None => None
  }

  function OptArgs(o: Option<seq<ArgConstraint>>): Option<Cv> {
    match o case Some(args) => Some(Arr(ArgsToCv(args))) case None => None
  }

  function OptRecovery(o: Option<RecoveryConfig>): Option<Cv> {
    match o case Some(r) => Some(RecoveryToCv(r)) case None => None
  }

  function Strs(ss: seq<string>): (cs: seq<Cv>)
    ensures |cs| == |ss|
  {
    seq(|ss|, i requires 0 <= i < |ss| => Str(ss[i]))
  }

  const DOC_KEYS := ["version", "network", "signers", "rules", "recovery"]

  function DocToCv(doc: PolicyDoc): Cv {
    Record(DOC_KEYS,
           [OfU32(doc.version), OptStr(doc.network), Some(Arr(SignersToCv(doc.signers))),
            Some(Arr(RulesToCv(doc.rules))), OptRecovery(doc.recovery)])
  }

  function SignersToCv(ss: seq<SignerDecl>): (cs: seq<Cv>)
    ensures |cs| == |ss|
  {
    seq(|ss|, i requires 0 <= i < |ss| => SignerToCv(ss[i]))
  }

  function RulesToCv(rs: seq<Rule>): (cs: seq<Cv>)
    ensures |cs| == |rs|
  {
    seq(|rs|, i requires 0 <= i < |rs| => RuleToCv(rs[i]))
  }

  function ArgsToCv(args: seq<ArgConstraint>): (cs: seq<Cv>)
    ensures |cs| == |args|
  {
    seq(|args|, i requires 0 <= i < |args| => ArgConstraintToCv(args[i]))
  }

  const RECOVERY_KEYS := ["profile", "mode", "controller", "baseline", "replaceable",
                          "delay-ledgers", "expiry-ledgers", "max-cancels"]

  function RecoveryToCv(r: RecoveryConfig): Cv {
    Record(RECOVERY_KEYS,
           [OfStr(ProfileStr(r.profile)),
            Some(ModeToCv(r.mode)),
            OfStr(r.controller),
            OptBaseline(r.baseline),
            OfStrs(r.replaceableIds),
            OfU32(r.delayLedgers),
            OfU32(r.expiryLedgers),
            OfU32(r.maxCancels)])
  }

  function BaselineToCv(docHash: string): Cv {
    Record(["doc-hash"], [OfStr(docHash)])
  }

  function ProfileStr(p: RecoveryProfile): string {
    match p case Loss => "loss" case Protected => "protected"
  }

  const GUARDIAN_KEYS := ["type", "guardians", "quorum"]
  const ZK_KEYS := ["type", "adapter", "circuit-id", "pool", "enrollment-id", "commitment"]
  const COMBINED_KEYS := ["type", "guardians", "quorum", "adapter", "circuit-id", "pool", "enrollment-id", "commitment"]

  function ModeToCv(mode: RecoveryMode): Cv {
    match mode
    case GuardianOnly(g) => Record(GUARDIAN_KEYS, [OfStr("guardian-only"), OfStrs(g.guardians), OfU32(g.quorum)])
    case ZkOnly(z) =>
      Record(ZK_KEYS, [OfStr("zk-only"), OfStr(z.adapter), OfStr(z.circuitId), OfStr(z.pool), OfStr(z.enrollmentId),
                       OfStr(z.commitment)])
    case Combined(g, z) =>
      Record(COMBINED_KEYS, [OfStr("combined"), OfStrs(g.guardians), OfU32(g.quorum),
                             OfStr(z.adapter), OfStr(z.circuitId), OfStr(z.pool), OfStr(z.enrollmentId),
                             OfStr(z.commitment)])
  }

  const EXTERNAL_KEYS := ["id", "verifier", "key"]
  const DELEGATED_KEYS := ["id", "address"]

  function SignerToCv(s: SignerDecl): Cv {
    match s.how
    case External(verifier, key) => Record(EXTERNAL_KEYS, [OfStr(s.id), OfStr(verifier), OfStr(key)])
    case Delegated(address) => Record(DELEGATED_KEYS, [OfStr(s.id), OfStr(address)])
  }

  const RULE_KEYS := ["name", "scope", "principals", "functions", "args", "not-after-ledger", "cap"]

  function RuleToCv(r: Rule): Cv {
    Record(RULE_KEYS,
           [OfStr(r.name),
            Some(ScopeToCv(r.scope)),
            Some(PrincipalsToCv(r.principals)),
            OptStrs(r.functions),
            OptArgs(r.args),
            OptU32(r.notAfterLedger),
            OptCap(r.cap)])
  }

  const TYPE_ADDRESS := ["type", "address"]

  function ScopeToCv(s: Scope): Cv {
    match s
    case ContractScope(address) => Record(TYPE_ADDRESS, [OfStr("contract"), OfStr(address)])
    case SelfAdmin => Record(["type"], [OfStr("self-admin")])
  }

  const ALL_KEYS := ["type", "signers"]
  const THRESHOLD_KEYS := ["type", "signers", "m"]
  const SELF_AUTH_KEYS := ["type", "policy", "install-param-hex", "ack"]

  function PrincipalsToCv(p: Principals): Cv {
    match p
    case AllOfThem(ids) => Record(ALL_KEYS, [OfStr("all"), OfStrs(ids)])
    case Threshold(ids, m) => Record(THRESHOLD_KEYS, [OfStr("threshold"), OfStrs(ids), OfU32(m)])
    case SelfAuthenticating(policy, param, ack) =>
      Record(SELF_AUTH_KEYS, [OfStr("self-authenticating"), OfStr(policy), OfStr(param), OfStr(ack)])
  }

  const ARG_KEYS := ["index", "pred"]

  function ArgConstraintToCv(a: ArgConstraint): Cv {
    Record(ARG_KEYS, [OfU32(a.index), Some(PredToCv(a.pred))])
  }

  function PredToCv(p: ArgPred): Cv {
    match p
    case IsSelf => Record(["type"], [OfStr("is-self")])
    case AddressEq(address) => Record(TYPE_ADDRESS, [OfStr("address-eq"), OfStr(address)])
    case StringIn(values) => Record(["type", "values"], [OfStr("string-in"), OfStrs(values)])
    case StringPrefix(prefix) => Record(["type", "prefix"], [OfStr("string-prefix"), OfStr(prefix)])
    case U32Eq(value) => Record(["type", "value"], [OfStr("u32-eq"), OfU32(value)])
  }

  const CAP_KEYS := ["token", "limit", "period-ledgers"]

  function CapToCv(cap: CapConstraint): Cv {
    Record(CAP_KEYS,
           [OptStr(cap.token), OfStr(cap.limit), OfU32(cap.periodLedgers)])
  }

  // ----- string literals -----

  function HexDigit(n: nibble): char {
    if n < 10 then (n + '0' as int) as char else (n - 10 + 'a' as int) as char
  }

  function Escape(c: char): (e: string)
    ensures e != [] && e[0] != '"'
  {
    var n := c as int;
    if c == '"' then "\\\"" else if c == '\\' then "\\\\"
    else if n == 8 then "\\b" else if n == 9 then "\\t" else if n == 10 then "\\n"
    else if n == 12 then "\\f" else if n == 13 then "\\r"
    else if n < 0x20 then "\\u00" + [HexDigit(n / 16), HexDigit(n % 16)]
    else [c]
  }

  function EscapeAll(s: string): string {
    if s == [] then [] else EscapeAll(s[..|s|-1]) + Escape(s[|s|-1])
  }

  function Quoted(s: string): string {
    "\"" + EscapeAll(s) + "\""
  }

  // ----- member order -----

  /** One or two UTF-16 code units per character. */
  function Units(c: char): (u: seq<int>)
    ensures 1 <= |u| <= 2
  {
    var n := c as int;
    if n < 0x10000 then [n] else [0xD800 + (n - 0x10000) / 0x400, 0xDC00 + (n - 0x10000) % 0x400]
  }

  function Utf16(s: string): seq<int> {
    if s == [] then [] else Units(s[0]) + Utf16(s[1..])
  }

  predicate KeyBefore(a: string, b: string) {
    LexLess(Utf16(a), Utf16(b))
  }

  function Insert(m: Member, ms: seq<Member>): seq<Member> {
    if ms == [] || !KeyBefore(ms[0].key, m.key) then [m] + ms else [ms[0]] + Insert(m, ms[1..])
  }

  ghost predicate DistinctKeys(ms: seq<Member>) {
    forall i, j :: 0 <= i < j < |ms| ==> ms[i].key != ms[j].key
  }

  /** Stable sort by key. */
  function SortMembers(ms: seq<Member>): seq<Member> {
    if ms == [] then [] else Insert(ms[0], SortMembers(ms[1..]))
  }

  /** The tree with every object's members in canonical order. */
  function Norm(v: Cv): Cv
    decreases v, 1
  {
    match v
    case Arr(items) => Arr(NormItems(items))
    case Obj(ms) => Obj(SortMembers(NormMembers(ms)))
    case _ => v
  }

  function NormItems(items: seq<Cv>): (r: seq<Cv>)
    ensures |r| == |items|
    decreases items, 0
  {
    seq(|items|, i requires 0 <= i < |items| => Norm(items[i]))
  }

  function NormMembers(ms: seq<Member>): (r: seq<Member>)
    ensures |r| == |ms|
    decreases ms, 0
  {
    seq(|ms|, i requires 0 <= i < |ms| => Member(ms[i].key, Norm(ms[i].val)))
  }

  // ----- value trees to text -----

  /** Comma-separated parts. */
  function Join(parts: seq<string>): string {
    if parts == [] then [] else if |parts| == 1 then parts[0] else parts[0] + "," + Join(parts[1..])
  }

  /** Text of a tree whose members are already in order. */
  function Emit(v: Cv): string
    decreases v, 1
  {
    match v
    case Str(s) => Quoted(s)
    case U32(n) => Decimal(n)
    case Arr(items) => "[" + Join(ItemTexts(items)) + "]"
    case Obj(ms) => "{" + Join(MemberTexts(ms)) + "}"
  }

  function ItemTexts(items: seq<Cv>): (r: seq<string>)
    ensures |r| == |items|
    decreases items, 0
  {
    seq(|items|, i requires 0 <= i < |items| => Emit(items[i]))
  }

  function MemberTexts(ms: seq<Member>): (r: seq<string>)
    ensures |r| == |ms|
    decreases ms, 0
  {
    seq(|ms|, i requires 0 <= i < |ms| => Quoted(ms[i].key) + ":" + Emit(ms[i].val))
  }

  function Canonical(v: Cv): string {
    Emit(Norm(v))
  }

  function CanonicalJson(doc: PolicyDoc): string { Canonical(DocToCv(doc)) }
  function RecoveryCanonicalJson(r: RecoveryConfig): string { Canonical(RecoveryToCv(r)) }
  function RuleCanonicalJson(rule: Rule): string { Canonical(RuleToCv(rule)) }

  const RULE_HASH_DOMAIN := "perch/rule"

  /** What a rule's provenance hash is the SHA-256 of. */
  function RulePreimage(rule: Rule): string {
    RULE_HASH_DOMAIN + RuleCanonicalJson(rule)
  }

  // ----- the writer -----

  /** Append a string literal, escaping character by character. */
  method WriteJsonString(s: string, out: string) returns (out': string)
    ensures out' == out + Quoted(s)
  {
    hide Escape;
    var body := "";
    for i := 0 to |s|
      invariant body == EscapeAll(s[..i])
    {
      assert s[..i+1][..i] == s[..i];
      body := body + Escape(s[i]);
    }
    assert s[..|s|] == s;
    out' := out + ("\"" + body + "\"");
  }

  lemma {:induction false} JoinSnoc(parts: seq<string>, last: string)
    ensures Join(parts + [last]) == Join(parts) + (if parts == [] then last else "," + last)
  {
    if parts == [] {
    } else {
      var all := parts + [last];
      assert all[1..] == parts[1..] + [last];
      JoinSnoc(parts[1..], last);
      if |parts| == 1 {
        assert Join(all) == parts[0] + "," + last;
        assert parts[0] + "," + last == parts[0] + ("," + last);
      } else {
        assert parts[0] + "," + (Join(parts[1..]) + ("," + last)) == parts[0] + "," + Join(parts[1..]) + ("," + last);
      }
    }
  }

  /** Append a value: containers recursively, object members sorted first. */
  method WriteValue(v: Cv, out: string) returns (out': string)
    ensures out' == out + Canonical(v)
    decreases v, 1
  {
    match v
    case Str(s) => out' := WriteJsonString(s, out);
    case U32(n) => out' := out + Decimal(n);
    case Arr(items) =>
      var body := WriteItems(items);
      out' := out + ("[" + body + "]");
    case Obj(ms) =>
      var entries := SortMembers(ms);
      SortKeepsMembers(ms);
      SortThenNorm(ms);
      var body := WriteMembers(entries, v);
      out' := out + ("{" + body + "}");
  }

  /** Writing part `i` after its separator extends the joined text by that part. */
  lemma JoinStep(parts: seq<string>, i: nat)
    requires i < |parts|
    ensures Join(parts[..i+1]) == (if i > 0 then Join(parts[..i]) + "," else Join(parts[..i])) + parts[i]
  {
    JoinSnoc(parts[..i], parts[i]);
    assert parts[..i+1] == parts[..i] + [parts[i]];
    var before, text := Join(parts[..i]), parts[i];
    hide Join;
    assert before + "," + text == before + ("," + text);
  }

  method WriteItems(items: seq<Cv>) returns (body: string)
    ensures body == Join(ItemTexts(NormItems(items)))
    decreases items, 0
  {
    body := "";
    ghost var texts := ItemTexts(NormItems(items));
    for i := 0 to |items|
      invariant body == Join(texts[..i])
    {
      JoinStep(texts, i);
      if i > 0 { body := body + ","; }
      body := WriteValue(items[i], body);
    }
    assert texts[..|items|] == texts;
  }

  lemma MemberTextAt(entries: seq<Member>, i: nat)
    requires i < |entries|
    ensures MemberTexts(NormMembers(entries))[i] == Quoted(entries[i].key) + ":" + Canonical(entries[i].val)
  {
  }

  method WriteMembers(entries: seq<Member>, ghost whole: Cv) returns (body: string)
    requires whole.Obj? && forall i :: 0 <= i < |entries| ==> entries[i] in whole.members
    ensures body == Join(MemberTexts(NormMembers(entries)))
    decreases whole, 0
  {
    hide Quoted, Canonical, MemberTexts, NormMembers;
    body := "";
    ghost var texts := MemberTexts(NormMembers(entries));
    for i := 0 to |entries|
      invariant body == Join(texts[..i])
    {
      JoinStep(texts, i);
      MemberTextAt(entries, i);
      if i > 0 { body := body + ","; }
      assert entries[i] in whole.members;
      body := WriteMember(entries[i], body);
    }
    assert texts[..|entries|] == texts;
  }

  method WriteMember(m: Member, out: string) returns (out': string)
    ensures out' == out + (Quoted(m.key) + ":" + Canonical(m.val))
    decreases m, 2
  {
    hide Quoted, Canonical;
    out' := WriteJsonString(m.key, out);
    out' := out' + ":";
    out' := WriteValue(m.val, out');
    assert out + Quoted(m.key) + ":" + Canonical(m.val) == out + (Quoted(m.key) + ":" + Canonical(m.val));
  }

  lemma {:induction false} InsertKeepsMembers(m: Member, ms: seq<Member>)
    ensures multiset(Insert(m, ms)) == multiset(ms) + multiset{m}
    ensures |Insert(m, ms)| == |ms| + 1
  {
    if ms != [] && KeyBefore(ms[0].key, m.key) {
      InsertKeepsMembers(m, ms[1..]);
      assert ms == [ms[0]] + ms[1..];
    }
  }

  lemma {:induction false} SortKeepsMembers(ms: seq<Member>)
    ensures multiset(SortMembers(ms)) == multiset(ms)
    ensures |SortMembers(ms)| == |ms|
    ensures forall i :: 0 <= i < |SortMembers(ms)| ==> SortMembers(ms)[i] in ms
  {
    hide Insert;
    if ms != [] {
      SortKeepsMembers(ms[1..]);
      InsertKeepsMembers(ms[0], SortMembers(ms[1..]));
      assert ms == [ms[0]] + ms[1..];
    }
    forall i | 0 <= i < |SortMembers(ms)| ensures SortMembers(ms)[i] in ms {
      assert SortMembers(ms)[i] in multiset(SortMembers(ms));
    }
  }

  lemma {:induction false} InsertThenNorm(m: Member, ms: seq<Member>)
    ensures NormMembers(Insert(m, ms)) == Insert(Member(m.key, Norm(m.val)), NormMembers(ms))
  {
    hide KeyBefore, Norm;
    if ms == [] || !KeyBefore(ms[0].key, m.key) {
      assert NormMembers([m] + ms) == [Member(m.key, Norm(m.val))] + NormMembers(ms);
    } else {
      InsertThenNorm(m, ms[1..]);
      assert NormMembers(ms)[1..] == NormMembers(ms[1..]);
      assert NormMembers([ms[0]] + Insert(m, ms[1..])) == [NormMembers(ms)[0]] + NormMembers(Insert(m, ms[1..]));
    }
  }

  /** Sorting looks only at keys, so it commutes with normalising the values. */
  lemma {:induction false} SortThenNorm(ms: seq<Member>)
    ensures NormMembers(SortMembers(ms)) == SortMembers(NormMembers(ms))
  {
    if ms != [] {
      SortThenNorm(ms[1..]);
      InsertThenNorm(ms[0], SortMembers(ms[1..]));
      assert NormMembers(ms)[1..] == NormMembers(ms[1..]);
    }
  }
}
