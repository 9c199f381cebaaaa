/** Semantic validation of documents (crates/perch-ir/src/validate.rs): a collecting
    checker with seen-sets and maps, proved to decide a declarative notion of validity. */
module Validate {
  import opened Base
  import opened Text
  import opened Doc
  import opened Credentials
  import Strkey
  import Field

  const ACK_SENTINEL := "this-policy-authenticates-or-anyone-can-fire-this-rule"
  const MAX_SIGNER_KEY_LEN := 256
  const MAX_STRING_PRED_LEN := 256

  datatype DocError =
    | UnsupportedVersion(version: u32)
    | EmptySignerId(position: nat) | DuplicateSignerId(id: string)
    | InvalidSignerKeyHex(id: string) | SignerKeyLength(id: string, len: nat)
    | DuplicateSignerKey(id: string, firstId: string)
    | InvalidVerifierAddress(id: string, address: string) | InvalidDelegatedAddress(id: string, address: string)
    | EmptyRuleName(position: nat) | DuplicateRuleName(name: string)
    | InvalidContractAddress(rule: string, address: string)
    | EmptyPrincipalSigners(rule: string) | DuplicatePrincipalSigner(rule: string, id: string)
    | UnknownSignerRef(rule: string, id: string) | InvalidThreshold(rule: string, m: u32, n: nat)
    | WrongAckSentinel(rule: string) | InvalidPolicyAddress(rule: string, address: string)
    | InvalidInstallParamHex(rule: string)
    | EmptyFunctions(rule: string) | EmptyFunctionName(rule: string)
    | InvalidFunctionName(rule: string, name: string) | DuplicateFunction(rule: string, name: string)
    | EmptyArgs(rule: string) | DuplicateArgIndex(rule: string, index: u32)
    | EmptyStringInValues(rule: string, index: u32) | DuplicateStringInValue(rule: string, index: u32, value: string)
    | StringPredicateTooLong(rule: string, index: u32, len: nat)
    | InvalidArgAddress(rule: string, index: u32, address: string)
    | ZeroNotAfterLedger(rule: string)
    | InvalidCapLimit(rule: string, limit: string) | ZeroCapPeriod(rule: string)
    | InvalidCapToken(rule: string, address: string) | CapTokenMismatch(rule: string, token: string, scope: string)
    | CapWithoutToken(rule: string)
    | RuleScopedToRecoveryContract(rule: string, address: string)
    | EmptyRecoveryReplaceable | DuplicateRecoveryReplaceable(id: string) | UnknownRecoveryReplaceableRef(id: string)
    | ZeroRecoveryDelayLedgers | ZeroRecoveryExpiryLedgers | ZeroRecoveryMaxCancels
    | InvalidRecoveryController(address: string) | InvalidBaselineDocHash(docHash: string)
    | EmptyGuardianSet | DuplicateGuardian(address: string) | InvalidGuardianAddress(address: string)
    | InvalidGuardianQuorum(quorum: u32, n: nat)
    | InvalidRecoveryAdapter(address: string) | InvalidCircuitId(circuitId: string)
    | InvalidRecoveryPool(address: string) | InvalidEnrollmentId(enrollmentId: string)
    | InvalidCommitment(commitment: string)

  // ----- what validity means -----

  predicate IsContractAddress(s: string) { Strkey.IsStrkeyShape(s, "C") }
  predicate IsAddress(s: string) { Strkey.IsStrkeyShape(s, "CG") }

  predicate IsSymbolChar(c: char) {
    'a' <= c <= 'z' || 'A' <= c <= 'Z' || '0' <= c <= '9' || c == '_'
  }

  predicate IsValidSymbol(s: string) {
    1 <= |s| <= 32 && forall i :: 0 <= i < |s| ==> IsSymbolChar(s[i])
  }

  ghost predicate ValidSigner(s: SignerDecl) {
    s.id != "" && ValidHow(s.how)
  }

  predicate ValidHow(how: SignerMethod) {
    match how
    case External(verifier, key) =>
      HexDecode(key).Some? && 1 <= |HexDecode(key).value| <= MAX_SIGNER_KEY_LEN && IsContractAddress(verifier)
    case Delegated(address) => IsAddress(address)
  }

  /** The same id, or one physical credential under two ids. */
  ghost predicate Clash(s: SignerDecl, t: SignerDecl) {
    s.id == t.id || (CredentialOf(s.how).Some? && CredentialOf(s.how) == CredentialOf(t.how))
  }

  ghost predicate ValidSigners(signers: seq<SignerDecl>) {
    && (forall i :: 0 <= i < |signers| ==> ValidSigner(signers[i]))
    && (forall i, j :: 0 <= i < j < |signers| ==> !Clash(signers[i], signers[j]))
  }

  predicate AllDeclared(ids: seq<string>, declared: set<string>) {
    forall i :: 0 <= i < |ids| ==> ids[i] in declared
  }

  ghost predicate ValidIds(ids: seq<string>, declared: set<string>) {
    ids != [] && NoDuplicates(ids) && AllDeclared(ids, declared)
  }

  ghost predicate ValidPrincipals(p: Principals, declared: set<string>) {
    match p
    case AllOfThem(ids) => ValidIds(ids, declared)
    case Threshold(ids, m) => ValidIds(ids, declared) && 1 <= m <= |ids|
    case SelfAuthenticating(policy, param, ack) =>
      ack == ACK_SENTINEL && IsContractAddress(policy) && HexDecode(param).Some?
  }

  ghost predicate ValidFunctions(fns: seq<string>) {
    fns != [] && NoDuplicates(fns) && forall i :: 0 <= i < |fns| ==> IsValidSymbol(fns[i])
  }

  ghost predicate ValidPred(p: ArgPred) {
    match p
    case StringIn(values) => values != [] && NoDuplicates(values)
    case StringPrefix(prefix) => |Utf8(prefix)| <= MAX_STRING_PRED_LEN
    case AddressEq(address) => IsAddress(address)
    case _ => true
  }

  ghost predicate ValidArgs(args: seq<ArgConstraint>) {
    args != [] && ArgsOk(args)
  }

  /** Distinct positions, each with a valid predicate. */
  ghost predicate ArgsOk(args: seq<ArgConstraint>) {
    && (forall i, j :: 0 <= i < j < |args| ==> args[i].index != args[j].index)
    && (forall i :: 0 <= i < |args| ==> ValidPred(args[i].pred))
  }

  ghost predicate ValidCap(cap: CapConstraint, scope: Scope) {
    && ParseI128(cap.limit).Some? && ParseI128(cap.limit).value > 0
    && cap.periodLedgers != 0
    && scope.ContractScope?
    && (cap.token.Some? ==> IsContractAddress(cap.token.value) && cap.token.value == scope.address)
  }

  ghost predicate ValidRule(r: Rule, declared: set<string>) {
    && (r.scope.ContractScope? ==> IsContractAddress(r.scope.address))
    && ValidPrincipals(r.principals, declared)
    && (r.functions.Some? ==> ValidFunctions(r.functions.value))
    && (r.args.Some? ==> ValidArgs(r.args.value))
    && r.notAfterLedger != Some(0)
    && (r.cap.Some? ==> ValidCap(r.cap.value, r.scope))
  }

  ghost predicate ValidRules(rules: seq<Rule>, declared: set<string>) {
    && (forall i :: 0 <= i < |rules| ==> rules[i].name != "" && ValidRule(rules[i], declared))
    && (forall i, j :: 0 <= i < j < |rules| ==> rules[i].name != rules[j].name)
  }

  ghost predicate ValidGuardians(g: GuardianSet) {
    && g.guardians != [] && NoDuplicates(g.guardians)
    && (forall i :: 0 <= i < |g.guardians| ==> IsAddress(g.guardians[i]))
    && 1 <= g.quorum <= |g.guardians|
  }

  predicate ValidZk(z: ZkFactor) {
    && IsContractAddress(z.adapter) && Field.IsSha256Hex(z.circuitId) && IsContractAddress(z.pool)
    && Field.IsSha256Hex(z.enrollmentId) && Field.CommitmentOk(z.commitment)
  }

  ghost predicate ValidRecovery(r: RecoveryConfig, declared: set<string>) {
    && ValidIds(r.replaceableIds, declared)
    && r.delayLedgers != 0 && r.expiryLedgers != 0 && r.maxCancels != 0
    && IsContractAddress(r.controller)
    && (r.baseline.Some? ==> Field.IsSha256Hex(r.baseline.value))
    && (!r.mode.ZkOnly? ==> ValidGuardians(r.mode.guardianSet))
    && (!r.mode.GuardianOnly? ==> ValidZk(r.mode.zkFactor))
  }

  predicate AvoidsZk(rule: Rule, z: ZkFactor) {
    rule.scope.ContractScope? ==> rule.scope.address != z.adapter && rule.scope.address != z.pool
  }

  function Declared(signers: seq<SignerDecl>): set<string> {
    set s | s in signers :: s.id
  }

  ghost predicate ValidDoc(doc: PolicyDoc) {
    var declared := Declared(doc.signers);
    && doc.version == 1
    && ValidSigners(doc.signers)
    && ValidRules(doc.rules, declared)
    && (doc.recovery.Some? ==>
          && ValidRecovery(doc.recovery.value, declared)
          && (!doc.recovery.value.mode.GuardianOnly? ==>
                forall i :: 0 <= i < |doc.rules| ==> AvoidsZk(doc.rules[i], doc.recovery.value.mode.zkFactor)))
  }

  // ----- what is reported -----

  function When(violated: bool, e: DocError): (report: seq<DocError>)
    ensures report == [] <==> !violated
  {
    if violated then [e] else []
  }

  /** The id of the first signer declared with a credential. */
  function FirstWith(seen: seq<SignerDecl>, c: Credential<string>): (first: Option<string>)
    ensures first.None? <==> forall k :: 0 <= k < |seen| ==> CredentialOf(seen[k].how) != Some(c)
    ensures first.Some? ==> exists k: nat :: FirstAt(seen, c, k) && seen[k].id == first.value
  {
    if seen == [] then None
    else
      var n := |seen| - 1;
      match FirstWith(seen[..n], c)
      case Some(id) =>
        assert exists k: nat :: FirstAt(seen, c, k) && seen[k].id == id by {
          var k: nat :| FirstAt(seen[..n], c, k) && seen[..n][k].id == id;
          assert FirstAt(seen, c, k);
        }
        Some(id)
      case None =>
        if CredentialOf(seen[n].how) == Some(c) then assert FirstAt(seen, c, n); Some(seen[n].id) else None
  }

  /** Position `k` is the first that declares the credential. */
  ghost predicate FirstAt(signers: seq<SignerDecl>, c: Credential<string>, k: nat) {
    && k < |signers| && CredentialOf(signers[k].how) == Some(c)
    && forall j :: 0 <= j < k ==> CredentialOf(signers[j].how) != Some(c)
  }

  function IdReport(seen: seq<SignerDecl>, id: string): seq<DocError> {
    if id == "" then [EmptySignerId(|seen|)] else When(id in Ids(seen), DuplicateSignerId(id))
  }

  /** An earlier signer with the credential is reported by the first one's id. */
  function RepeatReport(seen: seq<SignerDecl>, id: string, c: Credential<string>): seq<DocError> {
    match FirstWith(seen, c) case Some(first) => [DuplicateSignerKey(id, first)] case None => []
  }

  function CredentialReport(seen: seq<SignerDecl>, s: SignerDecl): seq<DocError> {
    match s.how
    case External(verifier, key) =>
      (match HexDecode(key)
       case None => [InvalidSignerKeyHex(s.id)]
       case Some(bytes) =>
         When(|bytes| == 0 || |bytes| > MAX_SIGNER_KEY_LEN, SignerKeyLength(s.id, |bytes|)) +
         RepeatReport(seen, s.id, ExternalKey(verifier, bytes))) +
      When(!IsContractAddress(verifier), InvalidVerifierAddress(s.id, verifier))
    case Delegated(address) =>
      When(!IsAddress(address), InvalidDelegatedAddress(s.id, address)) +
      RepeatReport(seen, s.id, DelegatedTo(address))
  }

  /** What a signer adds to the report, given the ones declared before it. */
  function SignerReport(seen: seq<SignerDecl>, s: SignerDecl): seq<DocError> {
    IdReport(seen, s.id) + CredentialReport(seen, s)
  }

  function SignersReport(signers: seq<SignerDecl>): seq<DocError> {
    if signers == [] then []
    else var n := |signers| - 1; SignersReport(signers[..n]) + SignerReport(signers[..n], signers[n])
  }

  lemma DistinctNone()
    ensures NoDuplicates<string>([])
  {
  }

  lemma DistinctLast(s: seq<string>, n: nat)
    requires |s| == n + 1
    ensures NoDuplicates(s) <==> NoDuplicates(s[..n]) && s[n] !in s[..n]
  {
  }

  /** Each repeat and each undeclared id, in list order. */
  function IdsReport(ids: seq<string>, declared: set<string>, dup: string -> DocError,
                     unknown: string -> DocError): seq<DocError> {
    if ids == [] then []
    else
      var n := |ids| - 1;
      IdsReport(ids[..n], declared, dup, unknown) + OneIdReport(ids[..n], ids[n], declared, dup, unknown)
  }

  function OneIdReport(seen: seq<string>, id: string, declared: set<string>, dup: string -> DocError,
                       unknown: string -> DocError): seq<DocError> {
    When(id in seen, dup(id)) + When(id !in declared, unknown(id))
  }

  lemma {:induction false} IdsClean(ids: seq<string>, declared: set<string>, dup: string -> DocError,
                                    unknown: string -> DocError)
    ensures IdsReport(ids, declared, dup, unknown) == [] <==> NoDuplicates(ids) && AllDeclared(ids, declared)
  {
    hide NoDuplicates, When;
    if ids == [] {
      DistinctNone();
    } else {
      var n := |ids| - 1;
      DistinctLast(ids, n);
      IdsClean(ids[..n], declared, dup, unknown);
      assert AllDeclared(ids, declared) <==> AllDeclared(ids[..n], declared) && ids[n] in declared;
    }
  }

  lemma IdsNone(declared: set<string>, dup: string -> DocError, unknown: string -> DocError)
    ensures IdsReport([], declared, dup, unknown) == []
  {
  }

  lemma IdsStep(ids: seq<string>, i: nat, declared: set<string>, dup: string -> DocError, unknown: string -> DocError)
    requires i < |ids|
    ensures IdsReport(ids[..i+1], declared, dup, unknown) ==
            IdsReport(ids[..i], declared, dup, unknown) + OneIdReport(ids[..i], ids[i], declared, dup, unknown)
  {
    assert ids[..i+1][..i] == ids[..i];
  }

  function PrincipalSignersReport(rule: string, ids: seq<string>, declared: set<string>): seq<DocError> {
    When(ids == [], EmptyPrincipalSigners(rule)) +
    IdsReport(ids, declared, id => DuplicatePrincipalSigner(rule, id), id => UnknownSignerRef(rule, id))
  }

  function PrincipalsReport(rule: string, p: Principals, declared: set<string>): seq<DocError> {
    match p
    case AllOfThem(ids) => PrincipalSignersReport(rule, ids, declared)
    case Threshold(ids, m) =>
      PrincipalSignersReport(rule, ids, declared) + When(m == 0 || m > |ids|, InvalidThreshold(rule, m, |ids|))
    case SelfAuthenticating(policy, param, ack) =>
      When(ack != ACK_SENTINEL, WrongAckSentinel(rule)) +
      When(!IsContractAddress(policy), InvalidPolicyAddress(rule, policy)) +
      When(HexDecode(param).None?, InvalidInstallParamHex(rule))
  }

  function FunctionNamesReport(rule: string, fns: seq<string>): seq<DocError> {
    if fns == [] then []
    else
      var n := |fns| - 1;
      FunctionNamesReport(rule, fns[..n]) +
        (SymbolReport(rule, fns[n]) + When(fns[n] in fns[..n], DuplicateFunction(rule, fns[n])))
  }

  function SymbolReport(rule: string, name: string): (report: seq<DocError>)
    ensures report == [] <==> IsValidSymbol(name)
  {
    if name == "" then [EmptyFunctionName(rule)] else When(!IsValidSymbol(name), InvalidFunctionName(rule, name))
  }

  lemma {:induction false} FunctionNamesClean(rule: string, fns: seq<string>)
    ensures FunctionNamesReport(rule, fns) == [] <==>
            NoDuplicates(fns) && forall i :: 0 <= i < |fns| ==> IsValidSymbol(fns[i])
  {
    hide NoDuplicates, IsValidSymbol, When, SymbolReport;
    if fns == [] {
      DistinctNone();
    } else {
      var n := |fns| - 1;
      DistinctLast(fns, n);
      FunctionNamesClean(rule, fns[..n]);
      assert (forall i :: 0 <= i < |fns| ==> IsValidSymbol(fns[i])) <==>
             (forall i :: 0 <= i < n ==> IsValidSymbol(fns[..n][i])) && IsValidSymbol(fns[n]);
    }
  }

  function FunctionsReport(rule: string, fns: seq<string>): seq<DocError> {
    When(fns == [], EmptyFunctions(rule)) + FunctionNamesReport(rule, fns)
  }

  function ValuesReport(rule: string, index: u32, values: seq<string>): (report: seq<DocError>)
    ensures report == [] <==> NoDuplicates(values)
  {
    if values == [] then []
    else
      var n := |values| - 1;
      DistinctLast(values, n);
      ValuesReport(rule, index, values[..n]) +
        When(values[n] in values[..n], DuplicateStringInValue(rule, index, values[n]))
  }

  function PredReport(rule: string, index: u32, p: ArgPred): seq<DocError> {
    match p
    case StringIn(values) => When(values == [], EmptyStringInValues(rule, index)) + ValuesReport(rule, index, values)
    case StringPrefix(prefix) =>
      When(|Utf8(prefix)| > MAX_STRING_PRED_LEN, StringPredicateTooLong(rule, index, |Utf8(prefix)|))
    case AddressEq(address) => When(!IsAddress(address), InvalidArgAddress(rule, index, address))
    case _ => []
  }

  function Positions(args: seq<ArgConstraint>): set<u32> {
    set a | a in args :: a.index
  }

  function ConstraintsReport(rule: string, args: seq<ArgConstraint>): seq<DocError> {
    if args == [] then []
    else
      var n := |args| - 1;
      ConstraintsReport(rule, args[..n]) +
      (When(args[n].index in Positions(args[..n]), DuplicateArgIndex(rule, args[n].index)) +
       PredReport(rule, args[n].index, args[n].pred))
  }

  function ArgsReport(rule: string, args: seq<ArgConstraint>): seq<DocError> {
    When(args == [], EmptyArgs(rule)) + ConstraintsReport(rule, args)
  }

  function CapReport(rule: string, cap: CapConstraint, scope: Scope): seq<DocError> {
    var limit := ParseI128(cap.limit);
    When(limit.None? || limit.value <= 0, InvalidCapLimit(rule, cap.limit)) +
    When(cap.periodLedgers == 0, ZeroCapPeriod(rule)) +
    match (scope, cap.token)
    case (SelfAdmin, _) => [CapWithoutToken(rule)]
    case (ContractScope(address), Some(token)) =>
      if !IsContractAddress(token) then [InvalidCapToken(rule, token)]
      else When(token != address, CapTokenMismatch(rule, token, address))
    case (ContractScope(_), None) => []
  }

  function RuleReport(r: Rule, declared: set<string>): seq<DocError> {
    (if r.scope.ContractScope?
      then When(!IsContractAddress(r.scope.address), InvalidContractAddress(r.name, r.scope.address)) else []) +
    PrincipalsReport(r.name, r.principals, declared) +
    (if r.functions.Some? then FunctionsReport(r.name, r.functions.value) else []) +
    (if r.args.Some? then ArgsReport(r.name, r.args.value) else []) +
    When(r.notAfterLedger == Some(0), ZeroNotAfterLedger(r.name)) +
    (if r.cap.Some? then CapReport(r.name, r.cap.value, r.scope) else [])
  }

  function Names(rules: seq<Rule>): set<string> {
    set r | r in rules :: r.name
  }

  function NameReport(seen: seq<Rule>, name: string): seq<DocError> {
    if name == "" then [EmptyRuleName(|seen|)] else When(name in Names(seen), DuplicateRuleName(name))
  }

  function RulesReport(rules: seq<Rule>, declared: set<string>): seq<DocError> {
    if rules == [] then []
    else
      var n := |rules| - 1;
      RulesReport(rules[..n], declared) + (NameReport(rules[..n], rules[n].name) + RuleReport(rules[n], declared))
  }

  function GuardianListReport(guardians: seq<string>): seq<DocError> {
    if guardians == [] then []
    else
      var n := |guardians| - 1;
      GuardianListReport(guardians[..n]) +
      (When(guardians[n] in guardians[..n], DuplicateGuardian(guardians[n])) +
       When(!IsAddress(guardians[n]), InvalidGuardianAddress(guardians[n])))
  }

  lemma {:induction false} GuardianListClean(guardians: seq<string>)
    ensures GuardianListReport(guardians) == [] <==>
            NoDuplicates(guardians) && forall i :: 0 <= i < |guardians| ==> IsAddress(guardians[i])
  {
    hide NoDuplicates, IsAddress, When;
    if guardians == [] {
      DistinctNone();
    } else {
      var n := |guardians| - 1;
      DistinctLast(guardians, n);
      GuardianListClean(guardians[..n]);
      assert (forall i :: 0 <= i < |guardians| ==> IsAddress(guardians[i])) <==>
             (forall i :: 0 <= i < n ==> IsAddress(guardians[..n][i])) && IsAddress(guardians[n]);
    }
  }

  function GuardiansReport(g: GuardianSet): seq<DocError> {
    When(g.guardians == [], EmptyGuardianSet) + GuardianListReport(g.guardians) +
    When(g.quorum == 0 || g.quorum > |g.guardians|, InvalidGuardianQuorum(g.quorum, |g.guardians|))
  }

  function ZkReport(z: ZkFactor): seq<DocError> {
    When(!IsContractAddress(z.adapter), InvalidRecoveryAdapter(z.adapter)) +
    When(!Field.IsSha256Hex(z.circuitId), InvalidCircuitId(z.circuitId)) +
    When(!IsContractAddress(z.pool), InvalidRecoveryPool(z.pool)) +
    When(!Field.IsSha256Hex(z.enrollmentId), InvalidEnrollmentId(z.enrollmentId)) +
    When(!Field.CommitmentOk(z.commitment), InvalidCommitment(z.commitment))
  }

  function RecoveryReport(r: RecoveryConfig, declared: set<string>): seq<DocError> {
    When(r.replaceableIds == [], EmptyRecoveryReplaceable) +
    IdsReport(r.replaceableIds, declared, id => DuplicateRecoveryReplaceable(id),
              id => UnknownRecoveryReplaceableRef(id)) +
    When(r.delayLedgers == 0, ZeroRecoveryDelayLedgers) +
    When(r.expiryLedgers == 0, ZeroRecoveryExpiryLedgers) +
    When(r.maxCancels == 0, ZeroRecoveryMaxCancels) +
    When(!IsContractAddress(r.controller), InvalidRecoveryController(r.controller)) +
    (if r.baseline.Some? then When(!Field.IsSha256Hex(r.baseline.value), InvalidBaselineDocHash(r.baseline.value))
      else []) +
    (if r.mode.ZkOnly? then [] else GuardiansReport(r.mode.guardianSet)) +
    (if r.mode.GuardianOnly? then [] else ZkReport(r.mode.zkFactor))
  }

  function AvoidsZkReport(rules: seq<Rule>, z: ZkFactor): seq<DocError> {
    if rules == [] then []
    else
      var n := |rules| - 1;
      AvoidsZkReport(rules[..n], z) +
      if AvoidsZk(rules[n], z) then [] else [RuleScopedToRecoveryContract(rules[n].name, rules[n].scope.address)]
  }

  function RecoverySectionReport(doc: PolicyDoc): seq<DocError> {
    match doc.recovery
    case None => []
    case Some(r) =>
      RecoveryReport(r, Declared(doc.signers)) + if r.mode.GuardianOnly? then []
        else AvoidsZkReport(doc.rules, r.mode.zkFactor)
  }

  /** Every violation of a document, in document order. */
  function DocReport(doc: PolicyDoc): seq<DocError> {
    When(doc.version != 1, UnsupportedVersion(doc.version)) + SignersReport(doc.signers) +
    RulesReport(doc.rules, Declared(doc.signers)) + RecoverySectionReport(doc)
  }

  // ----- which violations are reported -----

  /** A signer violation is reported exactly when some signer, given the earlier ones, has it. */
  lemma {:induction false} SignerErrorIff(signers: seq<SignerDecl>, e: DocError)
    ensures e in SignersReport(signers) <==>
            exists i :: 0 <= i < |signers| && e in SignerReport(signers[..i], signers[i])
  {
    hide SignerReport;
    if signers != [] {
      var n := |signers| - 1;
      var init := signers[..n];
      SignerErrorIff(init, e);
      assert forall i :: 0 <= i < n ==> init[..i] == signers[..i] && init[i] == signers[i];
    }
  }

  lemma RepeatIn(seen: seq<SignerDecl>, s: SignerDecl, id: string, first: string)
    ensures DuplicateSignerKey(id, first) in SignerReport(seen, s) <==>
            id == s.id && CredentialOf(s.how).Some? && FirstWith(seen, CredentialOf(s.how).value) == Some(first)
  {
    hide HexDecode, FirstWith, IdReport, IsContractAddress, IsAddress;
    var e := DuplicateSignerKey(id, first);
    assert e !in IdReport(seen, s.id) by { IdReportKinds(seen, s.id); }
    match s.how
    case External(verifier, key) =>
      if HexDecode(key).Some? {
        assert e in CredentialReport(seen, s) <==>
               e in RepeatReport(seen, s.id, ExternalKey(verifier, HexDecode(key).value));
      }
    case Delegated(address) =>
      assert e in CredentialReport(seen, s) <==> e in RepeatReport(seen, s.id, DelegatedTo(address));
  }

  lemma IdReportKinds(seen: seq<SignerDecl>, id: string)
    ensures forall e :: e in IdReport(seen, id) ==> e.EmptySignerId? || e.DuplicateSignerId?
  {
  }

  lemma FirstIs(signers: seq<SignerDecl>, i: nat, c: Credential<string>, first: string)
    requires i <= |signers|
    ensures FirstWith(signers[..i], c) == Some(first) <==>
            exists k: nat :: k < i && FirstAt(signers, c, k) && signers[k].id == first
  {
    hide CredentialOf, FirstWith;
    var seen := signers[..i];
    assert forall k: nat :: k < i && FirstAt(signers, c, k) ==> FirstAt(seen, c, k);
    if FirstWith(seen, c).Some? {
      var k: nat :| FirstAt(seen, c, k) && seen[k].id == FirstWith(seen, c).value;
      assert FirstAt(signers, c, k);
    }
  }

  /** One credential under two ids is reported for each later signer with it, and names the
      first signer that declared it. */
  lemma DuplicateKeyIff(signers: seq<SignerDecl>, id: string, first: string)
    ensures DuplicateSignerKey(id, first) in SignersReport(signers) <==>
            exists i: nat, k: nat :: Repeats(signers, i, k) && signers[i].id == id && signers[k].id == first
  {
    hide SignerReport, SignersReport, CredentialOf, FirstWith, FirstAt;
    SignerErrorIff(signers, DuplicateSignerKey(id, first));
    forall i | 0 <= i < |signers|
      ensures DuplicateSignerKey(id, first) in SignerReport(signers[..i], signers[i]) <==>
              signers[i].id == id && exists k: nat :: Repeats(signers, i, k) && signers[k].id == first
    {
      RepeatIn(signers[..i], signers[i], id, first);
      if CredentialOf(signers[i].how).Some? { FirstIs(signers, i, CredentialOf(signers[i].how).value, first); }
    }
  }

  /** Signer `k` is the first to declare the credential that the later signer `i` declares. */
  ghost predicate Repeats(signers: seq<SignerDecl>, i: nat, k: nat) {
    k < i < |signers| && CredentialOf(signers[i].how).Some? && FirstAt(signers, CredentialOf(signers[i].how).value, k)
  }

  /** Rule `i` has the violation, by itself or by its name given the earlier rules. */
  predicate RuleHas(rules: seq<Rule>, declared: set<string>, i: nat, e: DocError)
    requires i < |rules|
  {
    e in NameReport(rules[..i], rules[i].name) + RuleReport(rules[i], declared)
  }

  lemma RuleHasInPrefix(rules: seq<Rule>, declared: set<string>, n: nat, i: nat, e: DocError)
    requires i < n <= |rules|
    ensures RuleHas(rules[..n], declared, i, e) <==> RuleHas(rules, declared, i, e)
  {
    hide NameReport, RuleReport;
    assert rules[..n][..i] == rules[..i];
  }

  /** A rule violation is reported exactly when some rule has it. */
  lemma {:induction false} RuleErrorIff(rules: seq<Rule>, declared: set<string>, e: DocError)
    ensures e in RulesReport(rules, declared) <==> exists i :: 0 <= i < |rules| && RuleHas(rules, declared, i, e)
  {
    hide RulesReport, RuleHas;
    if rules == [] {
      NoRules(rules, declared);
    } else {
      var n := |rules| - 1;
      RuleErrorIff(rules[..n], declared, e);
      forall i | 0 <= i < n ensures RuleHas(rules[..n], declared, i, e) <==> RuleHas(rules, declared, i, e) {
        RuleHasInPrefix(rules, declared, n, i, e);
      }
      LastRuleHas(rules, declared, n, e);
    }
  }

  lemma LastRuleHas(rules: seq<Rule>, declared: set<string>, n: nat, e: DocError)
    requires |rules| == n + 1
    ensures e in RulesReport(rules, declared) <==>
            e in RulesReport(rules[..n], declared) || RuleHas(rules, declared, n, e)
  {
    hide NameReport, RuleReport;
  }

  // ----- the collecting checker -----

  /** Report each violation; nothing is reported exactly when the document is valid. */
  method ValidateDoc(doc: PolicyDoc) returns (errors: seq<DocError>)
    ensures errors == DocReport(doc)
    ensures errors == [] <==> ValidDoc(doc)
  {
    hide SignersReport, RulesReport, RecoveryReport, AvoidsZkReport, ValidSigners, ValidRules, ValidRecovery, AvoidsZk;
    errors := if doc.version != 1 then [UnsupportedVersion(doc.version)] else [];
    var es := ValidateSigners(doc.signers);
    errors := errors + es;
    var declared := Declared(doc.signers);
    es := ValidateRules(doc.rules, declared);
    errors := errors + es;
    if doc.recovery.Some? {
      es := ValidateRecovery(doc.recovery.value, declared);
      var fs := ValidateRulesAvoidZk(doc.rules, doc.recovery.value.mode);
      errors := errors + (es + fs);
    }
  }

  type KeyMaterial = (string, seq<byte>)

  function Ids(seen: seq<SignerDecl>): set<string> {
    set s | s in seen && s.id != "" :: s.id
  }

  /** What the two maps say about a credential. */
  function Lookup(keys: map<KeyMaterial, string>, delegated: map<string, string>,
                  c: Credential<string>): Option<string> {
    match c
    case ExternalKey(verifier, bytes) => if (verifier, bytes) in keys then Some(keys[(verifier, bytes)]) else None
    case DelegatedTo(address) => if address in delegated then Some(delegated[address]) else None
  }

  /** The seen-set holds the ids, and the maps give each credential its first holder. */
  ghost predicate SeenSigners(seen: seq<SignerDecl>, ids: set<string>, keys: map<KeyMaterial, string>,
                              delegated: map<string, string>) {
    ids == Ids(seen) && forall c :: Lookup(keys, delegated, c) == FirstWith(seen, c)
  }

  /** A signer clashes with an earlier one exactly when its id or credential was seen. */
  lemma ClashIsSeen(seen: seq<SignerDecl>, s: SignerDecl)
    requires s.id != ""
    ensures (exists i :: 0 <= i < |seen| && Clash(seen[i], s)) <==>
            s.id in Ids(seen) || (CredentialOf(s.how).Some? && FirstWith(seen, CredentialOf(s.how).value).Some?)
  {
    hide CredentialOf, FirstWith;
    if s.id in Ids(seen) {
      var t :| t in seen && t.id == s.id;
      var i :| 0 <= i < |seen| && seen[i] == t;
      assert Clash(seen[i], s);
    } else if CredentialOf(s.how).Some? && FirstWith(seen, CredentialOf(s.how).value).Some? {
      var k: nat :| FirstAt(seen, CredentialOf(s.how).value, k);
      assert Clash(seen[k], s);
    }
  }

  lemma ValidSignersStep(seen: seq<SignerDecl>, s: SignerDecl)
    ensures ValidSigners(seen + [s]) <==>
            ValidSigners(seen) && ValidSigner(s) && !exists i :: 0 <= i < |seen| && Clash(seen[i], s)
  {
    hide ValidSigner, Clash;
    var all := seen + [s];
    assert all[|seen|] == s;
    if ValidSigners(all) {
      assert forall i :: 0 <= i < |seen| ==> seen[i] == all[i];
    }
  }

  method ValidateSigners(signers: seq<SignerDecl>) returns (errors: seq<DocError>)
    ensures errors == SignersReport(signers)
    ensures errors == [] <==> ValidSigners(signers)
  {
    hide ValidSigner, Clash, ValidSigners, SeenSigners, SignerReport;
    errors := [];
    var ids: set<string>, keys: map<KeyMaterial, string>, delegated: map<string, string> := {}, map[], map[];
    NothingSeen();
    for i := 0 to |signers|
      invariant errors == SignersReport(signers[..i])
      invariant errors == [] <==> ValidSigners(signers[..i])
      invariant SeenSigners(signers[..i], ids, keys, delegated)
    {
      assert signers[..i+1] == signers[..i] + [signers[i]] && signers[..i+1][..i] == signers[..i];
      ValidSignersStep(signers[..i], signers[i]);
      var es;
      es, ids, keys, delegated := ValidateSigner(i, signers[i], ids, keys, delegated, signers[..i]);
      errors := errors + es;
    }
    assert signers[..|signers|] == signers;
  }

  lemma NothingSeen()
    ensures ValidSigners([]) && SeenSigners([], {}, map[], map[])
  {
  }

  lemma IdsAppend(seen: seq<SignerDecl>, s: SignerDecl)
    ensures Ids(seen + [s]) == Ids(seen) + if s.id != "" then {s.id} else {}
  {
  }

  lemma FirstAppend(seen: seq<SignerDecl>, s: SignerDecl, c: Credential<string>)
    ensures FirstWith(seen + [s], c) ==
            if FirstWith(seen, c).None? && CredentialOf(s.how) == Some(c) then Some(s.id) else FirstWith(seen, c)
  {
    hide CredentialOf;
    assert (seen + [s])[..|seen|] == seen;
  }

  /** One signer against everything already seen. */
  method ValidateSigner(position: nat, s: SignerDecl, ids: set<string>, keys: map<KeyMaterial, string>,
                        delegated: map<string, string>, ghost seen: seq<SignerDecl>)
    returns (errors: seq<DocError>, ids': set<string>, keys': map<KeyMaterial, string>, delegated': map<string, string>)
    requires SeenSigners(seen, ids, keys, delegated) && position == |seen|
    ensures errors == SignerReport(seen, s)
    ensures errors == [] <==> ValidSigner(s) && !exists i :: 0 <= i < |seen| && Clash(seen[i], s)
    ensures SeenSigners(seen + [s], ids', keys', delegated')
  {
    hide Clash, HexDecode, IsContractAddress, IsAddress, CredentialReport, FirstWith, Lookup;
    if s.id != "" { ClashIsSeen(seen, s); }
    IdsAppend(seen, s);
    var es;
    es, keys', delegated' := ValidateCredential(s, keys, delegated, seen);
    errors, ids' := [], ids;
    if s.id == "" {
      errors := [EmptySignerId(position)];
    } else if s.id in ids {
      errors := [DuplicateSignerId(s.id)];
    } else {
      ids' := ids + {s.id};
    }
    errors := errors + es;
  }

  /** The credential of a signer; the maps keep the first holder of each. */
  method ValidateCredential(s: SignerDecl, keys: map<KeyMaterial, string>, delegated: map<string, string>,
                            ghost seen: seq<SignerDecl>)
    returns (errors: seq<DocError>, keys': map<KeyMaterial, string>, delegated': map<string, string>)
    requires forall c :: Lookup(keys, delegated, c) == FirstWith(seen, c)
    ensures errors == CredentialReport(seen, s)
    ensures errors == [] <==>
            ValidHow(s.how) && (CredentialOf(s.how).Some? ==> FirstWith(seen, CredentialOf(s.how).value).None?)
    ensures forall c :: Lookup(keys', delegated', c) == FirstWith(seen + [s], c)
  {
    hide HexDecode, IsContractAddress, IsAddress, FirstWith;
    forall c ensures FirstWith(seen + [s], c) ==
                     if FirstWith(seen, c).None? && CredentialOf(s.how) == Some(c) then Some(s.id)
                       else FirstWith(seen, c)
    {
      FirstAppend(seen, s, c);
    }
    errors, keys', delegated' := [], keys, delegated;
    match s.how {
    case External(verifier, key) =>
      var decoded := HexDecode(key);
      if decoded.None? {
        errors := [InvalidSignerKeyHex(s.id)];
      } else {
        assert Lookup(keys, delegated, ExternalKey(verifier, decoded.value)) ==
               FirstWith(seen, ExternalKey(verifier, decoded.value));
        if |decoded.value| == 0 || |decoded.value| > MAX_SIGNER_KEY_LEN {
          errors := [SignerKeyLength(s.id, |decoded.value|)];
        }
        if (verifier, decoded.value) in keys {
          errors := errors + [DuplicateSignerKey(s.id, keys[(verifier, decoded.value)])];
        } else {
          keys' := keys[(verifier, decoded.value) := s.id];
        }
      }
      if !IsContractAddress(verifier) {
        errors := errors + [InvalidVerifierAddress(s.id, verifier)];
      }
    case Delegated(address) =>
      assert Lookup(keys, delegated, DelegatedTo(address)) == FirstWith(seen, DelegatedTo(address));
      if !IsAddress(address) {
        errors := [InvalidDelegatedAddress(s.id, address)];
      }
      if address in delegated {
        errors := errors + [DuplicateSignerKey(s.id, delegated[address])];
      } else {
        delegated' := delegated[address := s.id];
      }
    }
  }

  method ValidateRules(rules: seq<Rule>, declared: set<string>) returns (errors: seq<DocError>)
    ensures errors == RulesReport(rules, declared)
    ensures errors == [] <==> ValidRules(rules, declared)
  {
    hide ValidRule, ValidRules, RuleReport, RulesReport, Names;
    errors := [];
    var seen: set<string> := {};
    NoRules(rules[..0], declared);
    for i := 0 to |rules|
      invariant errors == RulesReport(rules[..i], declared)
      invariant errors == [] <==> ValidRules(rules[..i], declared)
      invariant forall n :: n in seen <==> n != "" && n in Names(rules[..i])
    {
      var rule := rules[i];
      RulesAppend(rules, i, declared);
      var nameErrors := [];
      if rule.name == "" {
        nameErrors := [EmptyRuleName(i)];
      } else if rule.name in seen {
        nameErrors := [DuplicateRuleName(rule.name)];
      }
      if rule.name != "" { seen := seen + {rule.name}; }
      var es := ValidateRule(rule, declared);
      errors := errors + (nameErrors + es);
    }
    assert rules[..|rules|] == rules;
  }

  lemma NoRules(none: seq<Rule>, declared: set<string>)
    requires none == []
    ensures ValidRules(none, declared) && RulesReport(none, declared) == [] && Names(none) == {}
  {
  }

  lemma RulesAppend(rules: seq<Rule>, i: nat, declared: set<string>)
    requires i < |rules|
    ensures ValidRules(rules[..i+1], declared) <==>
            && ValidRules(rules[..i], declared) && rules[i].name != "" && ValidRule(rules[i], declared)
            && rules[i].name !in Names(rules[..i])
    ensures Names(rules[..i+1]) == Names(rules[..i]) + {rules[i].name}
    ensures RulesReport(rules[..i+1], declared) ==
            RulesReport(rules[..i], declared) + (NameReport(rules[..i], rules[i].name) + RuleReport(rules[i], declared))
  {
    hide ValidRule, RuleReport, NameReport;
    var a, b := rules[..i], rules[..i+1];
    assert b == a + [rules[i]] && b[..i] == a;
    assert forall k :: 0 <= k < i ==> a[k] == rules[k] == b[k];
  }

  /** The prefix up to and including position `i`. */
  lemma Prefix(s: seq<string>, i: nat)
    requires i < |s|
    ensures s[..i+1][..i] == s[..i] && s[..i+1][i] == s[i]
    ensures forall x :: x in s[..i+1] <==> x in s[..i] || x == s[i]
  {
    assert s[..i+1] == s[..i] + [s[i]];
  }

  /** A list of ids: repeats and undeclared ones are reported by `dup` and `unknown`. */
  method CheckIds(ids: seq<string>, declared: set<string>, dup: string -> DocError, unknown: string -> DocError)
    returns (errors: seq<DocError>)
    ensures errors == IdsReport(ids, declared, dup, unknown)
    ensures errors == [] <==> NoDuplicates(ids) && AllDeclared(ids, declared)
  {
    hide NoDuplicates, IdsReport, AllDeclared;
    errors := [];
    var seen: set<string> := {};
    IdsNone(declared, dup, unknown);
    for i := 0 to |ids|
      invariant errors == IdsReport(ids[..i], declared, dup, unknown)
      invariant forall id :: id in seen <==> id in ids[..i]
    {
      Prefix(ids, i);
      IdsStep(ids, i, declared, dup, unknown);
      errors := errors + (When(ids[i] in seen, dup(ids[i])) + When(ids[i] !in declared, unknown(ids[i])));
      seen := seen + {ids[i]};
    }
    assert ids[..|ids|] == ids;
    IdsClean(ids, declared, dup, unknown);
  }

  method ValidatePrincipalSigners(rule: string, ids: seq<string>, declared: set<string>) returns (errors: seq<DocError>)
    ensures errors == PrincipalSignersReport(rule, ids, declared)
    ensures errors == [] <==> ValidIds(ids, declared)
  {
    errors := if ids == [] then [EmptyPrincipalSigners(rule)] else [];
    var es := CheckIds(ids, declared, id => DuplicatePrincipalSigner(rule, id), id => UnknownSignerRef(rule, id));
    errors := errors + es;
  }

  method ValidateRule(r: Rule, declared: set<string>) returns (errors: seq<DocError>)
    ensures errors == RuleReport(r, declared)
    ensures errors == [] <==> ValidRule(r, declared)
  {
    hide When, IsContractAddress, PrincipalsReport, FunctionsReport, ArgsReport, CapReport,
      ValidPrincipals, ValidFunctions, ValidArgs, ValidCap;
    errors := [];
    if r.scope.ContractScope? {
      errors := When(!IsContractAddress(r.scope.address), InvalidContractAddress(r.name, r.scope.address));
    }
    var es := ValidatePrincipals(r.name, r.principals, declared);
    errors := errors + es;
    es := [];
    if r.functions.Some? { es := ValidateFunctions(r.name, r.functions.value); }
    errors := errors + es;
    es := [];
    if r.args.Some? { es := ValidateArgs(r.name, r.args.value); }
    errors := errors + es;
    errors := errors + When(r.notAfterLedger == Some(0), ZeroNotAfterLedger(r.name));
    es := [];
    if r.cap.Some? { es := ValidateCap(r.name, r.cap.value, r.scope); }
    errors := errors + es;
  }

  method ValidatePrincipals(rule: string, p: Principals, declared: set<string>) returns (errors: seq<DocError>)
    ensures errors == PrincipalsReport(rule, p, declared)
    ensures errors == [] <==> ValidPrincipals(p, declared)
  {
    match p
    case AllOfThem(ids) =>
      errors := ValidatePrincipalSigners(rule, ids, declared);
    case Threshold(ids, m) =>
      errors := ValidatePrincipalSigners(rule, ids, declared);
      if m == 0 || m > |ids| { errors := errors + [InvalidThreshold(rule, m, |ids|)]; }
    case SelfAuthenticating(policy, param, ack) =>
      errors := [];
      if ack != ACK_SENTINEL { errors := errors + [WrongAckSentinel(rule)]; }
      if !IsContractAddress(policy) { errors := errors + [InvalidPolicyAddress(rule, policy)]; }
      if HexDecode(param).None? { errors := errors + [InvalidInstallParamHex(rule)]; }
  }

  method ValidateFunctions(rule: string, fns: seq<string>) returns (errors: seq<DocError>)
    ensures errors == FunctionsReport(rule, fns)
    ensures errors == [] <==> ValidFunctions(fns)
  {
    hide NoDuplicates, IsValidSymbol, SymbolReport, When;
    errors := [];
    var seen: set<string> := {};
    for i := 0 to |fns|
      invariant errors == FunctionNamesReport(rule, fns[..i])
      invariant forall f :: f in seen <==> f in fns[..i]
    {
      Prefix(fns, i);
      errors := errors + (SymbolReport(rule, fns[i]) + When(fns[i] in seen, DuplicateFunction(rule, fns[i])));
      seen := seen + {fns[i]};
    }
    assert fns[..|fns|] == fns;
    FunctionNamesClean(rule, fns);
    errors := When(fns == [], EmptyFunctions(rule)) + errors;
  }

  method ValidateArgs(rule: string, args: seq<ArgConstraint>) returns (errors: seq<DocError>)
    ensures errors == ArgsReport(rule, args)
    ensures errors == [] <==> ValidArgs(args)
  {
    hide ValidPred, ArgsOk, PredReport, When;
    errors := [];
    var seen: set<u32> := {};
    assert ArgsOk(args[..0]) by { NoArgs(); }
    for i := 0 to |args|
      invariant errors == ConstraintsReport(rule, args[..i])
      invariant errors == [] <==> ArgsOk(args[..i])
      invariant seen == Positions(args[..i])
    {
      ArgsAppend(args, i);
      assert args[..i+1][..i] == args[..i];
      var es := ValidatePred(rule, args[i].index, args[i].pred);
      errors := errors + (When(args[i].index in seen, DuplicateArgIndex(rule, args[i].index)) + es);
      seen := seen + {args[i].index};
    }
    assert args[..|args|] == args;
    errors := When(args == [], EmptyArgs(rule)) + errors;
  }

  lemma NoArgs()
    ensures ArgsOk([])
  {
  }

  lemma ArgsAppend(args: seq<ArgConstraint>, i: nat)
    requires i < |args|
    ensures ArgsOk(args[..i+1]) <==>
            ArgsOk(args[..i]) && ValidPred(args[i].pred) && args[i].index !in Positions(args[..i])
    ensures Positions(args[..i+1]) == Positions(args[..i]) + {args[i].index}
  {
    hide ValidPred;
    var a, b := args[..i], args[..i+1];
    assert b == a + [args[i]];
    assert forall k :: 0 <= k < i ==> a[k] == args[k] == b[k];
  }

  method ValidateValues(rule: string, index: u32, values: seq<string>) returns (errors: seq<DocError>)
    ensures errors == ValuesReport(rule, index, values)
  {
    hide NoDuplicates;
    errors := [];
    var seen: set<string> := {};
    for i := 0 to |values|
      invariant errors == ValuesReport(rule, index, values[..i])
      invariant forall v :: v in seen <==> v in values[..i]
    {
      Prefix(values, i);
      if values[i] in seen { errors := errors + [DuplicateStringInValue(rule, index, values[i])]; }
      seen := seen + {values[i]};
    }
    assert values[..|values|] == values;
  }

  method ValidatePred(rule: string, index: u32, p: ArgPred) returns (errors: seq<DocError>)
    ensures errors == PredReport(rule, index, p)
    ensures errors == [] <==> ValidPred(p)
  {
    errors := [];
    match p
    case StringIn(values) =>
      var es := ValidateValues(rule, index, values);
      errors := When(values == [], EmptyStringInValues(rule, index)) + es;
    case StringPrefix(prefix) =>
      if |Utf8(prefix)| > MAX_STRING_PRED_LEN { errors := [StringPredicateTooLong(rule, index, |Utf8(prefix)|)]; }
    case AddressEq(address) =>
      if !IsAddress(address) { errors := [InvalidArgAddress(rule, index, address)]; }
    case _ =>
  }

  method ValidateCap(rule: string, cap: CapConstraint, scope: Scope) returns (errors: seq<DocError>)
    ensures errors == CapReport(rule, cap, scope)
    ensures errors == [] <==> ValidCap(cap, scope)
  {
    hide IsContractAddress, ParseI128;
    errors := [];
    var limit := ParseI128(cap.limit);
    if limit.None? || limit.value <= 0 { errors := errors + [InvalidCapLimit(rule, cap.limit)]; }
    if cap.periodLedgers == 0 { errors := errors + [ZeroCapPeriod(rule)]; }
    match scope
    case ContractScope(address) =>
      if cap.token.Some? {
        if !IsContractAddress(cap.token.value) {
          errors := errors + [InvalidCapToken(rule, cap.token.value)];
        } else if cap.token.value != address {
          errors := errors + [CapTokenMismatch(rule, cap.token.value, address)];
        }
      }
    case SelfAdmin => errors := errors + [CapWithoutToken(rule)];
  }

  method ValidateRecovery(r: RecoveryConfig, declared: set<string>) returns (errors: seq<DocError>)
    ensures errors == RecoveryReport(r, declared)
    ensures errors == [] <==> ValidRecovery(r, declared)
  {
    hide When, IsContractAddress, GuardiansReport, ZkReport, IdsReport, ValidGuardians, ValidZk, Field.IsSha256Hex,
      NoDuplicates, AllDeclared;
    var es := CheckIds(r.replaceableIds, declared, id => DuplicateRecoveryReplaceable(id),
                       id => UnknownRecoveryReplaceableRef(id));
    errors := When(r.replaceableIds == [], EmptyRecoveryReplaceable) + es;
    errors := errors + When(r.delayLedgers == 0, ZeroRecoveryDelayLedgers);
    errors := errors + When(r.expiryLedgers == 0, ZeroRecoveryExpiryLedgers);
    errors := errors + When(r.maxCancels == 0, ZeroRecoveryMaxCancels);
    errors := errors + When(!IsContractAddress(r.controller), InvalidRecoveryController(r.controller));
    es := [];
    if r.baseline.Some? { es := When(!Field.IsSha256Hex(r.baseline.value), InvalidBaselineDocHash(r.baseline.value)); }
    errors := errors + es;
    es := [];
    if !r.mode.ZkOnly? { es := ValidateGuardians(r.mode.guardianSet); }
    errors := errors + es;
    es := [];
    if !r.mode.GuardianOnly? { es := ValidateZk(r.mode.zkFactor); }
    errors := errors + es;
  }

  method ValidateGuardians(g: GuardianSet) returns (errors: seq<DocError>)
    ensures errors == GuardiansReport(g)
    ensures errors == [] <==> ValidGuardians(g)
  {
    hide IsAddress, NoDuplicates, When;
    errors := [];
    var seen: set<string> := {};
    for i := 0 to |g.guardians|
      invariant errors == GuardianListReport(g.guardians[..i])
      invariant forall a :: a in seen <==> a in g.guardians[..i]
    {
      var a := g.guardians[i];
      Prefix(g.guardians, i);
      errors := errors + (When(a in seen, DuplicateGuardian(a)) + When(!IsAddress(a), InvalidGuardianAddress(a)));
      seen := seen + {a};
    }
    assert g.guardians[..|g.guardians|] == g.guardians;
    GuardianListClean(g.guardians);
    errors := When(g.guardians == [], EmptyGuardianSet) + errors +
              When(g.quorum == 0 || g.quorum > |g.guardians|, InvalidGuardianQuorum(g.quorum, |g.guardians|));
  }

  method ValidateZk(z: ZkFactor) returns (errors: seq<DocError>)
    ensures errors == ZkReport(z)
    ensures errors == [] <==> ValidZk(z)
  {
    hide When, IsContractAddress, Field.IsSha256Hex, Field.CommitmentOk;
    errors := When(!IsContractAddress(z.adapter), InvalidRecoveryAdapter(z.adapter));
    errors := errors + When(!Field.IsSha256Hex(z.circuitId), InvalidCircuitId(z.circuitId));
    errors := errors + When(!IsContractAddress(z.pool), InvalidRecoveryPool(z.pool));
    errors := errors + When(!Field.IsSha256Hex(z.enrollmentId), InvalidEnrollmentId(z.enrollmentId));
    errors := errors + When(!Field.CommitmentOk(z.commitment), InvalidCommitment(z.commitment));
  }

  method ValidateRulesAvoidZk(rules: seq<Rule>, mode: RecoveryMode) returns (errors: seq<DocError>)
    ensures errors == if mode.GuardianOnly? then [] else AvoidsZkReport(rules, mode.zkFactor)
    ensures errors == [] <==> mode.GuardianOnly? || forall i :: 0 <= i < |rules| ==> AvoidsZk(rules[i], mode.zkFactor)
  {
    errors := [];
    if mode.GuardianOnly? { return; }
    var z := mode.zkFactor;
    for i := 0 to |rules|
      invariant errors == AvoidsZkReport(rules[..i], z)
      invariant errors == [] <==> forall k :: 0 <= k < i ==> AvoidsZk(rules[k], z)
    {
      assert rules[..i+1][..i] == rules[..i];
      if rules[i].scope.ContractScope? && (rules[i].scope.address == z.adapter || rules[i].scope.address == z.pool) {
        errors := errors + [RuleScopedToRecoveryContract(rules[i].name, rules[i].scope.address)];
      }
    }
    assert rules[..|rules|] == rules;
  }
}
