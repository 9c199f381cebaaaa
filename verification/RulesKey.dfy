/** Cutting the rules out of a canonical document (scripts/rule-hash-vectors.py): the key
    `"rules":[` occurs exactly once, and the scanner started at its bracket returns exactly
    the canonical text of each rule. */
module RulesKey {
  import opened Base
  import opened Text
  import opened Doc
  import opened Canon
  import opened Scanner
  import Order
  import Reader
  import RoundTrip

  const KEY := "\"rules\":["

  /** The key occurs at `p`. */
  ghost predicate Hit(text: string, p: nat) {
    At(text, p, KEY)
  }

  lemma HitChars(text: string, p: nat)
    requires Hit(text, p)
    ensures p + 9 <= |text|
    ensures text[p] == '"' && text[p+1] == 'r' && text[p+2] == 'u' && text[p+3] == 'l' && text[p+4] == 'e' &&
            text[p+5] == 's'
    ensures text[p+6] == '"' && text[p+7] == ':' && text[p+8] == '['
  {
    var w := text[p..p+9];
    assert w == KEY;
    assert w[0] == text[p] && w[1] == text[p+1] && w[2] == text[p+2] && w[3] == text[p+3] && w[4] == text[p+4];
    assert w[5] == text[p+5] && w[6] == text[p+6] && w[7] == text[p+7] && w[8] == text[p+8];
  }

  lemma AtIndex(text: string, i: nat, w: string, j: nat)
    requires At(text, i, w) && j < |w|
    ensures i + j < |text| && text[i + j] == w[j]
  {
    assert text[i..i+|w|][j] == text[i + j];
  }

  // ----- inside strings -----

  /** A quote in an escaped body always follows a backslash. */
  lemma {:induction false} QuoteEscaped(s: string, j: nat)
    requires j < |EscapeAll(s)| && EscapeAll(s)[j] == '"'
    ensures j > 0 && EscapeAll(s)[j-1] == '\\'
  {
    hide Escape;
    var init, e := EscapeAll(s[..|s|-1]), Escape(s[|s|-1]);
    if j < |init| {
      QuoteEscaped(s[..|s|-1], j);
    } else {
      QuoteInEscape(s[|s|-1], j - |init|);
    }
  }

  lemma QuoteInEscape(c: char, j: nat)
    requires j < |Escape(c)| && Escape(c)[j] == '"'
    ensures j > 0 && Escape(c)[j-1] == '\\'
  {
  }

  /** What can follow a value. */
  ghost predicate Closes(text: string, j: nat) {
    j < |text| ==> text[j] == ',' || text[j] == ']' || text[j] == '}'
  }

  /** No string value holds the key: a quote inside it is escaped, and its closing quote is
      not followed by a colon. */
  lemma NoHitInString(text: string, i: nat, s: string, p: nat)
    requires At(text, i, Quoted(s)) && Closes(text, i + |Quoted(s)|) && i <= p < i + |Quoted(s)|
    ensures !Hit(text, p)
  {
    hide EscapeAll, Hit;
    var body := EscapeAll(s);
    var close := i + 1 + |body|;
    forall j | 0 <= j < |body| && body[j] == '"' ensures j > 0 && body[j-1] == '\\' { QuoteEscaped(s, j); }
    forall j | i < j < close ensures text[j] == body[j - i - 1] { AtIndex(text, i, Quoted(s), j - i); }
    AtIndex(text, i, Quoted(s), |body| + 1);
    NoHitBetween(text, i, body, close, p);
  }

  lemma NoHitBetween(text: string, i: nat, body: string, close: nat, p: nat)
    requires close == i + 1 + |body| && close < |text| && text[close] == '"' && Closes(text, close + 1)
    requires forall j :: i < j < close ==> text[j] == body[j - i - 1]
    requires forall j :: 0 <= j < |body| && body[j] == '"' ==> j > 0 && body[j-1] == '\\'
    requires i <= p <= close
    ensures !Hit(text, p)
  {
    if p + 6 < close && p + 6 < |text| && text[p + 6] == '"' {
      assert body[p + 6 - i - 1] == '"';
      assert text[p + 5] == '\\';
    }
    if Hit(text, p) { HitChars(text, p); }
  }

  /** A character the emitter writes as itself and that is no quote. */
  predicate PlainKey(k: string) {
    forall i :: 0 <= i < |k| ==> k[i] != '"' && k[i] != '\\' && k[i] as int >= 0x20
  }

  lemma {:induction false} PlainUnescaped(k: string)
    requires PlainKey(k)
    ensures EscapeAll(k) == k
  {
    hide Escape;
    if k != [] {
      PlainUnescaped(k[..|k|-1]);
      PlainChar(k[|k|-1]);
    }
  }

  lemma PlainChar(c: char)
    requires c != '"' && c != '\\' && c as int >= 0x20
    ensures Escape(c) == [c]
  {
  }

  lemma PlainQuoted(k: string)
    requires PlainKey(k)
    ensures Quoted(k) == "\"" + k + "\""
  {
    PlainUnescaped(k);
  }

  /** A member's key holds the key at its start, if it is that key, and nowhere else. */
  lemma HitInKey(text: string, i: nat, k: string, p: nat)
    requires PlainKey(k) && At(text, i, Quoted(k) + ":") && i <= p < i + |Quoted(k) + ":"|
    requires Hit(text, p)
    ensures p == i && k == "rules"
  {
    hide EscapeAll;
    PlainQuoted(k);
    HitChars(text, p);
    var w := Quoted(k) + ":";
    assert w == "\"" + k + "\"" + ":";
    AtIndex(text, i, w, |k| + 1);
    AtIndex(text, i, w, |k| + 2);
    forall j | i < j <= i + |k| ensures text[j] == k[j - i - 1] { AtIndex(text, i, w, j - i); }
    assert p == i;
    assert |k| == 5;
    assert k[0] == text[i+1] && k[1] == text[i+2] && k[2] == text[i+3] && k[3] == text[i+4] && k[4] == text[i+5];
  }

  // ----- inside values -----

  /** A plain key that is not `rules`. */
  predicate InnerKey(k: string) {
    PlainKey(k) && (|k| != 5 || k[0] != 'r')
  }

  /** No object inside the tree has a key `rules`. */
  predicate Inner(v: Cv) {
    match v
    case Arr(items) => forall i :: 0 <= i < |items| ==> Inner(items[i])
    case Obj(ms) => forall i :: 0 <= i < |ms| ==> InnerKey(ms[i].key) && Inner(ms[i].val)
    case _ => true
  }

  /** Where member `k` starts in the joined member texts. */
  function Offset(ms: seq<Member>, k: nat): nat
    requires k <= |ms|
  {
    if k == 0 then 0 else |MemberTexts(ms)[0]| + 1 + Offset(ms[1..], k - 1)
  }

  lemma SplitJoin(text: string, i: nat, parts: seq<string>, close: string)
    requires parts != [] && At(text, i, Join(parts) + close)
    ensures At(text, i, parts[0]) && At(text, i + |parts[0]|, Reader.After(parts, close))
    ensures |parts| > 1 ==> At(text, i + |parts[0]|, ",") && At(text, i + |parts[0]| + 1, Join(parts[1..]) + close)
    ensures |parts| > 1 ==> |Join(parts)| == |parts[0]| + 1 + |Join(parts[1..])|
  {
    Reader.JoinHead(parts, close);
    AtSplit(text, i, parts[0], Reader.After(parts, close));
    if |parts| > 1 { AtSplit(text, i + |parts[0]|, ",", Join(parts[1..]) + close); }
  }

  lemma {:induction false} NoHitInValue(text: string, i: nat, v: Cv, p: nat)
    requires Inner(v) && At(text, i, Emit(v)) && Closes(text, i + |Emit(v)|) && i <= p < i + |Emit(v)|
    ensures !Hit(text, p)
    decreases v, 3
  {
    hide Quoted, Join, Hit, At;
    match v
    case Str(s) => NoHitInString(text, i, s, p);
    case U32(n) =>
      AtIndex(text, i, Decimal(n), p - i);
      assert IsDigit(Decimal(n)[p - i]);
      NoHitAt(text, p);
    case Arr(items) =>
      var body := Join(ItemTexts(items));
      Bracketed(text, i, "[", body, "]", p);
      if i < p < i + 1 + |body| { NoHitInItems(text, i + 1, items, p); }
    case Obj(ms) =>
      var body := Join(MemberTexts(ms));
      Bracketed(text, i, "{", body, "}", p);
      if i < p < i + 1 + |body| && Hit(text, p) {
        var k := HitInMembers(text, i + 1, ms, p);
      }
  }

  lemma NoHitAt(text: string, p: nat)
    requires p < |text| && text[p] != '"'
    ensures !Hit(text, p)
  {
    if Hit(text, p) { HitChars(text, p); }
  }

  /** A bracketed body: its brackets are no hits, and it is followed by its closing one. */
  lemma Bracketed(text: string, i: nat, open: string, body: string, close: string, p: nat)
    requires (open == "[" && close == "]") || (open == "{" && close == "}")
    requires At(text, i, open + body + close) && i <= p < i + |body| + 2
    ensures At(text, i + 1, body + close)
    ensures p == i || p == i + 1 + |body| ==> !Hit(text, p)
  {
    assert open + body + close == open + (body + close);
    AtSplit(text, i, open, body + close);
    AtSplit(text, i + 1, body, close);
    AtIndex(text, i, open, 0);
    AtIndex(text, i + 1 + |body|, close, 0);
    if p == i || p == i + 1 + |body| { NoHitAt(text, p); }
  }

  lemma AfterCloses(text: string, j: nat, parts: seq<string>, close: string)
    requires parts != [] && (close == "]" || close == "}") && At(text, j, Reader.After(parts, close))
    ensures Closes(text, j)
  {
    AtIndex(text, j, Reader.After(parts, close), 0);
  }

  lemma {:induction false} NoHitInItems(text: string, i: nat, items: seq<Cv>, p: nat)
    requires Inner(Arr(items)) && At(text, i, Join(ItemTexts(items)) + "]") && i <= p < i + |Join(ItemTexts(items))|
    ensures !Hit(text, p)
    decreases items, 2
  {
    hide Hit, At, Emit, Closes;
    var texts := ItemTexts(items);
    var n := |Emit(items[0])|;
    SplitJoin(text, i, texts, "]");
    AfterCloses(text, i + n, texts, "]");
    if p < i + n {
      NoHitInValue(text, i, items[0], p);
    } else {
      assert texts[1..] == ItemTexts(items[1..]);
      if p == i + n {
        AtIndex(text, p, ",", 0);
        NoHitAt(text, p);
      } else {
        NoHitInItems(text, i + n + 1, items[1..], p);
      }
    }
  }

  /** In an object whose values hold no such key, a hit is the start of a member `rules`. */
  lemma {:induction false} HitInMembers(text: string, i: nat, ms: seq<Member>, p: nat) returns (k: nat)
    requires forall j :: 0 <= j < |ms| ==> PlainKey(ms[j].key) && Inner(ms[j].val)
    requires At(text, i, Join(MemberTexts(ms)) + "}") && i <= p < i + |Join(MemberTexts(ms))| && Hit(text, p)
    ensures k < |ms| && ms[k].key == "rules" && p == i + Offset(ms, k)
    decreases ms, 2
  {
    hide Hit, At, Closes, Inner, Quoted, PlainKey;
    var texts := MemberTexts(ms);
    var n := |texts[0]|;
    SplitJoin(text, i, texts, "}");
    AfterCloses(text, i + n, texts, "}");
    if p < i + n {
      HitInMember(text, i, ms[0], p);
      k := 0;
    } else {
      assert texts[1..] == MemberTexts(ms[1..]);
      if p == i + n { AtIndex(text, p, ",", 0); NoHitAt(text, p); }
      var j := HitInMembers(text, i + n + 1, ms[1..], p);
      k := j + 1;
    }
  }

  lemma HitInMember(text: string, i: nat, m: Member, p: nat)
    requires PlainKey(m.key) && Inner(m.val)
    requires At(text, i, Quoted(m.key) + ":" + Emit(m.val)) && Closes(text, i + |Quoted(m.key) + ":" + Emit(m.val)|)
    requires i <= p < i + |Quoted(m.key) + ":" + Emit(m.val)| && Hit(text, p)
    ensures p == i && m.key == "rules"
    decreases m, 0
  {
    hide Hit, At, Emit, Closes, Inner, Quoted, PlainKey;
    var head := Quoted(m.key) + ":";
    AtSplit(text, i, head, Emit(m.val));
    if p < i + |head| { HitInKey(text, i, m.key, p); } else { NoHitInValue(text, i + |head|, m.val, p); }
  }

  // ----- documents -----

  lemma TextsTail(ms: seq<Member>)
    requires ms != []
    ensures MemberTexts(ms)[1..] == MemberTexts(ms[1..])
  {
    hide Emit, Quoted;
  }

  lemma {:induction false} MemberAt(text: string, i: nat, ms: seq<Member>, k: nat)
    requires At(text, i, Join(MemberTexts(ms)) + "}") && k < |ms|
    ensures At(text, i + Offset(ms, k), MemberTexts(ms)[k])
    decreases |ms|
  {
    hide At, Join, MemberTexts;
    var texts := MemberTexts(ms);
    SplitJoin(text, i, texts, "}");
    if k > 0 {
      TextsTail(ms);
      MemberAt(text, i + |texts[0]| + 1, ms[1..], k - 1);
    }
  }

  lemma {:induction false} NormInner(v: Cv)
    requires Inner(v)
    ensures Inner(Norm(v))
    decreases v
  {
    match v
    case Arr(items) =>
      forall i | 0 <= i < |items| ensures Inner(Norm(items[i])) { NormInner(items[i]); }
    case Obj(ms) =>
      var ns := NormMembers(ms);
      forall i | 0 <= i < |ms| ensures InnerKey(ns[i].key) && Inner(ns[i].val) { NormInner(ms[i].val); }
      SortKeepsMembers(ns);
    case _ =>
  }

  lemma {:induction false} RecordInner(keys: seq<string>, vals: seq<Option<Cv>>)
    requires |keys| == |vals| && forall i :: 0 <= i < |keys| ==> InnerKey(keys[i])
    requires forall i :: 0 <= i < |vals| && vals[i].Some? ==> Inner(vals[i].value)
    ensures Inner(Record(keys, vals))
  {
    hide InnerKey;
    if keys != [] {
      var n := |keys| - 1;
      RecordInner(keys[..n], vals[..n]);
    }
  }

  lemma InnerKeys()
    ensures InnerKey("type") && InnerKey("address") && InnerKey("signers") && InnerKey("m") && InnerKey("policy")
    ensures InnerKey("install-param-hex") && InnerKey("ack")
  {
  }

  lemma InnerPredKeys()
    ensures InnerKey("type") && InnerKey("address") && InnerKey("values") && InnerKey("prefix") && InnerKey("value")
    ensures InnerKey("index") && InnerKey("pred")
  {
  }

  lemma InnerCapKeys()
    ensures InnerKey("token") && InnerKey("limit") && InnerKey("period-ledgers")
  {
  }

  lemma InnerRuleKeys()
    ensures InnerKey("name") && InnerKey("scope") && InnerKey("principals") && InnerKey("functions") && InnerKey("args")
    ensures InnerKey("not-after-ledger") && InnerKey("cap")
  {
  }

  lemma InnerSignerKeys()
    ensures InnerKey("id") && InnerKey("verifier") && InnerKey("key") && InnerKey("address")
  {
  }

  lemma InnerRecoveryKeys()
    ensures InnerKey("profile") && InnerKey("mode") && InnerKey("controller") && InnerKey("baseline") &&
            InnerKey("replaceable")
  {
  }

  lemma InnerLedgerKeys()
    ensures InnerKey("delay-ledgers") && InnerKey("expiry-ledgers") && InnerKey("max-cancels") && InnerKey("doc-hash")
  {
  }

  lemma InnerModeKeys()
    ensures InnerKey("guardians") && InnerKey("quorum") && InnerKey("adapter") && InnerKey("circuit-id") &&
            InnerKey("pool")
    ensures InnerKey("enrollment-id") && InnerKey("commitment")
  {
  }

  lemma StrsInner(ss: seq<string>)
    ensures Inner(Arr(Strs(ss)))
  {
  }

  lemma ScopeInner(s: Scope)
    ensures Inner(ScopeToCv(s))
  {
    hide InnerKey, Record;
    InnerKeys();
    match s
    case ContractScope(address) => TwoStrings(TYPE_ADDRESS, "contract", address);
    case SelfAdmin => OneValue("type", Str("self-admin"));
  }

  lemma OneValue(k: string, v: Cv)
    requires InnerKey(k) && Inner(v)
    ensures Inner(Record([k], [Some(v)]))
  {
    hide InnerKey, Inner;
    RecordInner([k], [Some(v)]);
  }

  lemma TwoValues(keys: seq<string>, v: Cv, w: Cv)
    requires |keys| == 2 && InnerKey(keys[0]) && InnerKey(keys[1]) && Inner(v) && Inner(w)
    ensures Inner(Record(keys, [Some(v), Some(w)]))
  {
    hide InnerKey, Inner;
    RecordInner(keys, [Some(v), Some(w)]);
  }

  lemma TwoStrings(keys: seq<string>, s: string, t: string)
    requires |keys| == 2 && InnerKey(keys[0]) && InnerKey(keys[1])
    ensures Inner(Record(keys, [OfStr(s), OfStr(t)]))
  {
    hide InnerKey;
    TwoValues(keys, Str(s), Str(t));
  }

  lemma PrincipalsInner(p: Principals)
    ensures Inner(PrincipalsToCv(p))
  {
    hide InnerKey, Record;
    InnerKeys();
    match p
    case AllOfThem(ids) => StrsInner(ids); RecordInner(ALL_KEYS, [OfStr("all"), OfStrs(ids)]);
    case Threshold(ids, m) => StrsInner(ids); RecordInner(THRESHOLD_KEYS, [OfStr("threshold"), OfStrs(ids), OfU32(m)]);
    case SelfAuthenticating(policy, param, ack) =>
      RecordInner(SELF_AUTH_KEYS, [OfStr("self-authenticating"), OfStr(policy), OfStr(param), OfStr(ack)]);
  }

  lemma PredInner(p: ArgPred)
    ensures Inner(PredToCv(p))
  {
    hide InnerKey, Record;
    InnerPredKeys();
    match p
    case IsSelf => OneValue("type", Str("is-self"));
    case AddressEq(address) => TwoStrings(TYPE_ADDRESS, "address-eq", address);
    case StringIn(values) => StrsInner(values); TwoValues(["type", "values"], Str("string-in"), Arr(Strs(values)));
    case StringPrefix(prefix) => TwoStrings(["type", "prefix"], "string-prefix", prefix);
    case U32Eq(value) => TwoValues(["type", "value"], Str("u32-eq"), U32(value));
  }

  lemma ArgsInner(args: seq<ArgConstraint>)
    ensures Inner(Arr(ArgsToCv(args)))
  {
    hide InnerKey, Record;
    InnerPredKeys();
    forall i | 0 <= i < |args| ensures Inner(ArgConstraintToCv(args[i])) {
      PredInner(args[i].pred);
      TwoValues(ARG_KEYS, U32(args[i].index), PredToCv(args[i].pred));
    }
  }

  lemma CapInner(cap: CapConstraint)
    ensures Inner(CapToCv(cap))
  {
    hide InnerKey, Record;
    InnerCapKeys();
    RecordInner(CAP_KEYS, [OptStr(cap.token), OfStr(cap.limit), OfU32(cap.periodLedgers)]);
  }

  lemma RuleInner(r: Rule)
    ensures Inner(RuleToCv(r))
  {
    hide InnerKey, Record, ScopeToCv, PrincipalsToCv, CapToCv, ArgsToCv;
    InnerRuleKeys();
    ScopeInner(r.scope);
    PrincipalsInner(r.principals);
    if r.functions.Some? { StrsInner(r.functions.value); }
    if r.args.Some? { ArgsInner(r.args.value); }
    if r.cap.Some? { CapInner(r.cap.value); }
    RecordInner(RULE_KEYS, [OfStr(r.name), Some(ScopeToCv(r.scope)), Some(PrincipalsToCv(r.principals)),
                            OptStrs(r.functions), OptArgs(r.args), OptU32(r.notAfterLedger), OptCap(r.cap)]);
  }

  lemma SignerInner(s: SignerDecl)
    ensures Inner(SignerToCv(s))
  {
    hide InnerKey, Record;
    InnerSignerKeys();
    match s.how
    case External(verifier, key) => RecordInner(EXTERNAL_KEYS, [OfStr(s.id), OfStr(verifier), OfStr(key)]);
    case Delegated(address) => TwoStrings(DELEGATED_KEYS, s.id, address);
  }

  lemma ModeInner(mode: RecoveryMode)
    ensures Inner(ModeToCv(mode))
  {
    hide InnerKey, Record;
    InnerKeys();
    InnerModeKeys();
    match mode
    case GuardianOnly(g) =>
      StrsInner(g.guardians);
      RecordInner(GUARDIAN_KEYS, [OfStr("guardian-only"), OfStrs(g.guardians), OfU32(g.quorum)]);
    case ZkOnly(z) =>
      RecordInner(ZK_KEYS, [OfStr("zk-only"), OfStr(z.adapter), OfStr(z.circuitId), OfStr(z.pool),
                            OfStr(z.enrollmentId), OfStr(z.commitment)]);
    case Combined(g, z) =>
      StrsInner(g.guardians);
      RecordInner(COMBINED_KEYS, [OfStr("combined"), OfStrs(g.guardians), OfU32(g.quorum),
                                  OfStr(z.adapter), OfStr(z.circuitId), OfStr(z.pool), OfStr(z.enrollmentId),
                                  OfStr(z.commitment)]);
  }

  lemma RecoveryInner(r: RecoveryConfig)
    ensures Inner(RecoveryToCv(r))
  {
    hide InnerKey, Record, ModeToCv;
    InnerRecoveryKeys();
    InnerLedgerKeys();
    ModeInner(r.mode);
    StrsInner(r.replaceableIds);
    if r.baseline.Some? { OneValue("doc-hash", Str(r.baseline.value)); }
    RecordInner(RECOVERY_KEYS,
                [OfStr(ProfileStr(r.profile)), Some(ModeToCv(r.mode)), OfStr(r.controller), OptBaseline(r.baseline),
                 OfStrs(r.replaceableIds), OfU32(r.delayLedgers), OfU32(r.expiryLedgers), OfU32(r.maxCancels)]);
  }

  // ----- the top level -----

  function DocVals(doc: PolicyDoc): seq<Option<Cv>> {
    [OfU32(doc.version), OptStr(doc.network), Some(Arr(SignersToCv(doc.signers))),
     Some(Arr(RulesToCv(doc.rules))), OptRecovery(doc.recovery)]
  }

  lemma DocValsInner(doc: PolicyDoc, i: nat)
    requires i < 5 && DocVals(doc)[i].Some?
    ensures Inner(DocVals(doc)[i].value)
  {
    hide SignerToCv, RuleToCv, RecoveryToCv;
    forall k | 0 <= k < |doc.signers| ensures Inner(SignerToCv(doc.signers[k])) { SignerInner(doc.signers[k]); }
    forall k | 0 <= k < |doc.rules| ensures Inner(RuleToCv(doc.rules[k])) { RuleInner(doc.rules[k]); }
    if doc.recovery.Some? { RecoveryInner(doc.recovery.value); }
  }

  lemma DocKeysPlain()
    ensures forall i :: 0 <= i < 5 ==> PlainKey(DOC_KEYS[i])
    ensures NoDuplicates(DOC_KEYS)
  {
    assert PlainKey("version") && PlainKey("network") && PlainKey("signers") && PlainKey("rules") &&
           PlainKey("recovery");
    assert "signers"[0] == 's' && "version"[0] == 'v' && "network"[0] == 'n';
  }

  /** A record's members come from its keys and values. */
  lemma {:induction false} MemberFrom(keys: seq<string>, vals: seq<Option<Cv>>, m: Member)
    requires |keys| == |vals|
    ensures m in Members(keys, vals) <==> exists i :: 0 <= i < |keys| && vals[i] == Some(m.val) && keys[i] == m.key
  {
    if keys != [] {
      var n := |keys| - 1;
      MemberFrom(keys[..n], vals[..n], m);
      assert forall i :: 0 <= i < n ==> keys[..n][i] == keys[i] && vals[..n][i] == vals[i];
    }
  }

  /** The members of a document in the order they are written. */
  function Written(doc: PolicyDoc): seq<Member> {
    SortMembers(NormMembers(Members(DOC_KEYS, DocVals(doc))))
  }

  lemma WrittenText(doc: PolicyDoc)
    ensures CanonicalJson(doc) == "{" + Join(MemberTexts(Written(doc))) + "}"
  {
    hide Join, MemberTexts, SortMembers, NormMembers, Members, SignersToCv, RulesToCv, OptRecovery;
    assert DocToCv(doc) == Obj(Members(DOC_KEYS, DocVals(doc)));
  }

  lemma NormMembersKeys(ms: seq<Member>, i: nat)
    requires i < |ms|
    ensures NormMembers(ms)[i] == Member(ms[i].key, Norm(ms[i].val))
  {
  }

  lemma WrittenMember(doc: PolicyDoc, m: Member)
    requires m in Written(doc)
    ensures PlainKey(m.key) && Inner(m.val)
    ensures m.key == "rules" ==> m.val == Arr(NormItems(RulesToCv(doc.rules)))
  {
    hide Inner, PlainKey, SignersToCv, RulesToCv, OptRecovery, SortMembers, Members, Norm;
    var ms := Members(DOC_KEYS, DocVals(doc));
    SortKeepsMembers(NormMembers(ms));
    assert m in multiset(NormMembers(ms)) by { assert m in multiset(Written(doc)); }
    var i :| 0 <= i < |ms| && NormMembers(ms)[i] == m;
    NormMembersKeys(ms, i);
    assert ms[i] in ms;
    MemberFrom(DOC_KEYS, DocVals(doc), ms[i]);
    var j :| 0 <= j < 5 && DocVals(doc)[j] == Some(ms[i].val) && DOC_KEYS[j] == ms[i].key;
    DocKeysPlain();
    DocValsInner(doc, j);
    NormInner(ms[i].val);
    if m.key == "rules" {
      assert DOC_KEYS[3] == "rules";
      assert j == 3;
      NormArr(RulesToCv(doc.rules));
    }
  }

  lemma NormArr(items: seq<Cv>)
    ensures Norm(Arr(items)) == Arr(NormItems(items))
  {
  }

  lemma RulesWritten(doc: PolicyDoc) returns (k: nat)
    ensures k < |Written(doc)| && Written(doc)[k].key == "rules"
    ensures forall j :: 0 <= j < |Written(doc)| && Written(doc)[j].key == "rules" ==> j == k
  {
    hide SignersToCv, RulesToCv, OptRecovery, SortMembers, Members, Norm;
    var v := DocVals(doc);
    var ms := Members(DOC_KEYS, v);
    var ns := NormMembers(ms);
    DocKeysPlain();
    RoundTrip.MembersAgree([], DOC_KEYS, v);
    var r := Member("rules", v[3].value);
    assert DOC_KEYS[3] == "rules";
    MemberFrom(DOC_KEYS, v, r);
    var i :| 0 <= i < |ms| && ms[i] == r;
    NormMembersKeys(ms, i);
    forall a, b | 0 <= a < b < |ms| ensures ns[a].key != ns[b].key {
      NormMembersKeys(ms, a);
      NormMembersKeys(ms, b);
    }
    Order.SortAscends(ns);
    assert ns[i] in Written(doc) by { assert ns[i] in ns; }
    k :| 0 <= k < |Written(doc)| && Written(doc)[k] == ns[i];
    Order.KeyIrreflexive("rules");
  }

  /** Where the key is in a document's canonical text. */
  ghost function RulesAt(doc: PolicyDoc): nat {
    assert exists k :: 0 <= k < |Written(doc)| && Written(doc)[k].key == "rules" by { var k := RulesWritten(doc); }
    var k :| 0 <= k < |Written(doc)| && Written(doc)[k].key == "rules";
    1 + Offset(Written(doc), k)
  }

  /** The rules member is written at that place. */
  lemma RulesText(doc: PolicyDoc) returns (k: nat)
    ensures k < |Written(doc)| && Written(doc)[k].key == "rules" && RulesAt(doc) == 1 + Offset(Written(doc), k)
    ensures forall j :: 0 <= j < |Written(doc)| && Written(doc)[j].key == "rules" ==> j == k
    ensures At(CanonicalJson(doc), RulesAt(doc), "\"rules\":" + Emit(Arr(NormItems(RulesToCv(doc.rules)))))
  {
    hide At, Join, Emit, Written, CanonicalJson, Inner, PlainKey, Quoted;
    k := RulesWritten(doc);
    var ms := Written(doc);
    WholeText(doc);
    MemberAt(CanonicalJson(doc), 1, ms, k);
    WrittenMember(doc, ms[k]);
    QuotedRules();
  }

  lemma QuotedRules()
    ensures Quoted("rules") + ":" == "\"rules\":"
  {
    PlainQuoted("rules");
  }

  lemma WholeText(doc: PolicyDoc)
    ensures |CanonicalJson(doc)| == |Join(MemberTexts(Written(doc)))| + 2
    ensures CanonicalJson(doc)[0] == '{' && CanonicalJson(doc)[|CanonicalJson(doc)| - 1] == '}'
    ensures At(CanonicalJson(doc), 1, Join(MemberTexts(Written(doc))) + "}")
  {
    hide Join, Written, CanonicalJson, MemberTexts;
    WrittenText(doc);
    var body := Join(MemberTexts(Written(doc)));
    assert "{" + body + "}" == "{" + (body + "}");
    assert At(CanonicalJson(doc), 0, CanonicalJson(doc));
    AtSplit(CanonicalJson(doc), 0, "{", body + "}");
  }

  lemma KeyHit(text: string, p: nat, body: string)
    requires At(text, p, "\"rules\":" + ("[" + body))
    ensures Hit(text, p)
  {
    assert "\"rules\":" + ("[" + body) == KEY + body;
    AtSplit(text, p, KEY, body);
  }

  /** The key occurs exactly once in a canonical document. */
  lemma RulesKeyUnique(doc: PolicyDoc, p: nat)
    ensures Hit(CanonicalJson(doc), p) <==> p == RulesAt(doc)
  {
    hide Hit, At, Join, Emit, Written, CanonicalJson, Inner, PlainKey;
    var text, ms := CanonicalJson(doc), Written(doc);
    var k := RulesText(doc);
    var body := EmitArr(NormItems(RulesToCv(doc.rules)));
    KeyHit(text, RulesAt(doc), body);
    if Hit(text, p) {
      HitRoom(text, p);
      WholeText(doc);
      if p == 0 { NoHitAt(text, p); }
      forall j | 0 <= j < |ms| ensures PlainKey(ms[j].key) && Inner(ms[j].val) { WrittenMember(doc, ms[j]); }
      var j := HitInMembers(text, 1, ms, p);
    }
  }

  lemma HitRoom(text: string, p: nat)
    requires Hit(text, p)
    ensures p + 9 <= |text|
  {
  }

  lemma EmitArr(items: seq<Cv>) returns (body: string)
    ensures Emit(Arr(items)) == "[" + body
  {
    body := Join(ItemTexts(items)) + "]";
  }

  /** The canonical text of each rule. */
  function RuleTexts(rules: seq<Rule>): seq<string> {
    seq(|rules|, i requires 0 <= i < |rules| => RuleCanonicalJson(rules[i]))
  }

  lemma ItemTextsOfRules(rules: seq<Rule>)
    ensures ItemTexts(NormItems(RulesToCv(rules))) == RuleTexts(rules)
  {
    hide Emit, Norm, RuleToCv;
  }

  lemma AtCut(text: string, p: nat, w: string) returns (before: string, after: string)
    requires At(text, p, w)
    ensures text == before + w + after && |before| == p
  {
    before, after := text[..p], text[p + |w|..];
  }

  /** The scanner, started at the bracket of that one occurrence, cuts the rules out: the
      canonical text of each, in document order. */
  lemma ScannerCutsRules(doc: PolicyDoc)
    ensures var text, at := CanonicalJson(doc), RulesAt(doc) + 8;
            && at < |text|
            && ScanFrom(text, at, Start(at)) ==
               Some((RuleTexts(doc.rules), at + |Canonical(Arr(RulesToCv(doc.rules)))|))
  {
    hide At, Emit, ScanFrom, Start, CanonicalJson, Written, RulesAt, RuleTexts, ItemTexts;
    var text, items := CanonicalJson(doc), NormItems(RulesToCv(doc.rules));
    var k := RulesText(doc);
    AtSplit(text, RulesAt(doc), "\"rules\":", Emit(Arr(items)));
    var body := EmitArr(items);
    var before, after := AtCut(text, RulesAt(doc) + 8, Emit(Arr(items)));
    ScannerInvertsEmitter(before, items, after);
    ItemTextsOfRules(doc.rules);
    NormArr(RulesToCv(doc.rules));
  }
}
