/** Deriving a recovery target (crates/perch-ir/src/recovery.rs), and how derivation
    commutes with lowering. */
module Derive {
  import opened Base
  import opened Text
  import opened Lex
  import opened Doc
  import opened Credentials
  import opened Compile
  import opened Lowering
  import Program

  datatype Replacement = Replacement(signerId: string, how: SignerMethod)

  datatype ZkRotation = ZkRotation(enrollmentId: string, commitment: string)

  datatype DeriveError =
    | NotEnrolled
    | NotCanonical
    | EmptyReplacements
    | NotReplaceable(id: string)
    | UndeclaredSigner(id: string)
    | KindMismatch(id: string)
    | ZkEnrollmentMismatch

  // ----- specification -----

  predicate InOrder(reps: seq<Replacement>, i: nat)
    requires i + 1 < |reps|
  {
    LexLess(Utf8(reps[i].signerId), Utf8(reps[i + 1].signerId))
  }

  predicate CanonicalOrder(reps: seq<Replacement>) {
    forall i :: 0 <= i < |reps| - 1 ==> InOrder(reps, i)
  }

  /** The same kind of credential; an external one keeps its verifier. */
  predicate SameKind(a: SignerMethod, b: SignerMethod) {
    match (a, b)
    case (External(v, _), External(w, _)) => v == w
    case (Delegated(_), Delegated(_)) => true
    case _ => false
  }

  function ReplaceOne(signers: seq<SignerDecl>, allowed: seq<string>, r: Replacement)
    : Result<seq<SignerDecl>, DeriveError>
  {
    if r.signerId !in allowed then Err(NotReplaceable(r.signerId))
    else
      FindSignerIsFirst(signers, r.signerId);
      match FindSigner(signers, r.signerId)
      case None => Err(UndeclaredSigner(r.signerId))
      case Some(k) =>
        if !SameKind(signers[k].how, r.how) then Err(KindMismatch(r.signerId))
        else Ok(signers[k := SignerDecl(signers[k].id, r.how)])
  }

  function ReplaceAll(signers: seq<SignerDecl>, allowed: seq<string>, reps: seq<Replacement>)
    : Result<seq<SignerDecl>, DeriveError>
  {
    if reps == [] then Ok(signers)
    else
      var init :- ReplaceAll(signers, allowed, reps[..|reps|-1]);
      ReplaceOne(init, allowed, reps[|reps|-1])
  }

  function RotateFactor(z: ZkFactor, rot: ZkRotation): ZkFactor {
    z.(enrollmentId := rot.enrollmentId, commitment := rot.commitment)
  }

  function Rotate(mode: RecoveryMode, zk: Option<ZkRotation>): Result<RecoveryMode, DeriveError> {
    match (mode, zk)
    case (GuardianOnly(_), None) => Ok(mode)
    case (ZkOnly(z), Some(rot)) => Ok(ZkOnly(RotateFactor(z, rot)))
    case (Combined(g, z), Some(rot)) => Ok(Combined(g, RotateFactor(z, rot)))
    case _ => Err(ZkEnrollmentMismatch)
  }

  function Derived(source: PolicyDoc, current: PolicyDoc, action: RecoveryAction, reps: seq<Replacement>,
                   zk: Option<ZkRotation>): Result<PolicyDoc, DeriveError>
  {
    if current.recovery.None? then Err(NotEnrolled)
    else if !CanonicalOrder(reps) then Err(NotCanonical)
    else if action == LostKey && reps == [] then Err(EmptyReplacements)
    else
      var recovery := current.recovery.value;
      var signers :- ReplaceAll(source.signers, recovery.replaceableIds, reps);
      var mode :- Rotate(recovery.mode, zk);
      Ok(PolicyDoc(source.version, source.network, signers, source.rules, Some(recovery.(mode := mode))))
  }

  // ----- the loop -----

  lemma {:induction false} ReplaceStops(signers: seq<SignerDecl>, allowed: seq<string>, reps: seq<Replacement>, k: nat)
    requires k <= |reps| && ReplaceAll(signers, allowed, reps[..k]).Err?
    ensures ReplaceAll(signers, allowed, reps) == ReplaceAll(signers, allowed, reps[..k])
  {
    hide ReplaceOne;
    if k == |reps| {
      assert reps[..k] == reps;
    } else {
      assert reps[..|reps|-1][..k] == reps[..k];
      ReplaceStops(signers, allowed, reps[..|reps|-1], k);
    }
  }

  method DeriveTarget(source: PolicyDoc, current: PolicyDoc, action: RecoveryAction, reps: seq<Replacement>,
                      zk: Option<ZkRotation>) returns (r: Result<PolicyDoc, DeriveError>)
    ensures r == Derived(source, current, action, reps, zk)
  {
    if current.recovery.None? { return Err(NotEnrolled); }
    var recovery := current.recovery.value;
    var i := 0;
    while i + 1 < |reps|
      invariant 0 <= i && (reps == [] ==> i == 0) && (reps != [] ==> i < |reps|)
      invariant forall j :: 0 <= j < i ==> InOrder(reps, j)
    {
      if !InOrder(reps, i) { return Err(NotCanonical); }
      i := i + 1;
    }
    if action == LostKey && reps == [] { return Err(EmptyReplacements); }
    var signers := OverwriteSigners(source.signers, recovery.replaceableIds, reps);
    if signers.Err? { return Err(signers.error); }
    match recovery.mode {
      case GuardianOnly(_) =>
        if zk.Some? { return Err(ZkEnrollmentMismatch); }
      case ZkOnly(z) =>
        if zk.None? { return Err(ZkEnrollmentMismatch); }
        recovery := recovery.(mode := ZkOnly(z.(enrollmentId := zk.value.enrollmentId,
                                                commitment := zk.value.commitment)));
      case Combined(g, z) =>
        if zk.None? { return Err(ZkEnrollmentMismatch); }
        recovery := recovery.(mode := Combined(g, z.(enrollmentId := zk.value.enrollmentId,
                                                     commitment := zk.value.commitment)));
    }
    return Ok(PolicyDoc(source.version, source.network, signers.value, source.rules, Some(recovery)));
  }

  /** Overwrite each replaced signer's method where it stands. */
  method OverwriteSigners(source: seq<SignerDecl>, allowed: seq<string>, reps: seq<Replacement>)
    returns (r: Result<seq<SignerDecl>, DeriveError>)
    ensures r == ReplaceAll(source, allowed, reps)
  {
    var signers := source;
    for k := 0 to |reps|
      invariant ReplaceAll(source, allowed, reps[..k]) == Ok(signers)
    {
      assert reps[..k+1][..k] == reps[..k];
      var rep := reps[k];
      if ReplaceOne(signers, allowed, rep).Err? { ReplaceStops(source, allowed, reps, k + 1); }
      if rep.signerId !in allowed { return Err(NotReplaceable(rep.signerId)); }
      var at := FindSigner(signers, rep.signerId);
      FindSignerIsFirst(signers, rep.signerId);
      if at.None? { return Err(UndeclaredSigner(rep.signerId)); }
      if !SameKind(signers[at.value].how, rep.how) { return Err(KindMismatch(rep.signerId)); }
      signers := signers[at.value := SignerDecl(signers[at.value].id, rep.how)];
    }
    assert reps[..|reps|] == reps;
    return Ok(signers);
  }

  // ----- what a derivation changes -----

  /** The credential a document gives an id. */
  function MethodOf(signers: seq<SignerDecl>, id: string): Option<SignerMethod> {
    FindSignerIsFirst(signers, id);
    match FindSigner(signers, id) case Some(k) => Some(signers[k].how) case None => None
  }

  /** The replacement declared for an id. */
  function Substitute(reps: seq<Replacement>, id: string): Option<SignerMethod> {
    if reps == [] then None
    else if reps[|reps|-1].signerId == id then Some(reps[|reps|-1].how)
    else Substitute(reps[..|reps|-1], id)
  }

  function Substituted(signers: seq<SignerDecl>, reps: seq<Replacement>, id: string): Option<SignerMethod> {
    if Substitute(reps, id).Some? then Substitute(reps, id) else MethodOf(signers, id)
  }

  ghost predicate SameIds(a: seq<SignerDecl>, b: seq<SignerDecl>) {
    |a| == |b| && forall i :: 0 <= i < |a| ==> a[i].id == b[i].id
  }

  lemma {:induction false} SameIdsFind(a: seq<SignerDecl>, b: seq<SignerDecl>, id: string)
    requires SameIds(a, b)
    ensures FindSigner(a, id) == FindSigner(b, id)
  {
    if a != [] { SameIdsFind(a[1..], b[1..], id); }
  }

  lemma ReplaceOneEffect(signers: seq<SignerDecl>, allowed: seq<string>, r: Replacement, id: string)
    requires ReplaceOne(signers, allowed, r).Ok?
    ensures SameIds(signers, ReplaceOne(signers, allowed, r).value)
    ensures MethodOf(ReplaceOne(signers, allowed, r).value, id) == if id == r.signerId then Some(r.how)
            else MethodOf(signers, id)
  {
    FindSignerIsFirst(signers, id);
    FindSignerIsFirst(signers, r.signerId);
    SameIdsFind(signers, ReplaceOne(signers, allowed, r).value, id);
  }

  /** Ids keep their places; each id resolves to its replacement, or to what it had. */
  lemma {:induction false} ReplaceAllEffect(signers: seq<SignerDecl>, allowed: seq<string>, reps: seq<Replacement>,
                                            id: string)
    requires ReplaceAll(signers, allowed, reps).Ok?
    ensures SameIds(signers, ReplaceAll(signers, allowed, reps).value)
    ensures MethodOf(ReplaceAll(signers, allowed, reps).value, id) == Substituted(signers, reps, id)
  {
    hide ReplaceOne, MethodOf;
    if reps != [] {
      var init := reps[..|reps|-1];
      ReplaceAllEffect(signers, allowed, init, id);
      ReplaceOneEffect(ReplaceAll(signers, allowed, init).value, allowed, reps[|reps|-1], id);
    }
  }

  // ----- what order the replacements come in -----

  /** The ids of the two replacements ascend, as UTF-8. */
  predicate Ascend(reps: seq<Replacement>, i: nat, j: nat)
    requires i < |reps| && j < |reps|
  {
    LexLess(Utf8(reps[i].signerId), Utf8(reps[j].signerId))
  }

  /** Comparing neighbours suffices: all ids ascend strictly, so no signer is named twice. */
  lemma OrderIsStrict(reps: seq<Replacement>)
    ensures CanonicalOrder(reps) <==> forall i, j :: 0 <= i < j < |reps| ==> Ascend(reps, i, j)
    ensures CanonicalOrder(reps) ==> forall i, j :: 0 <= i < j < |reps| ==> reps[i].signerId != reps[j].signerId
  {
    if CanonicalOrder(reps) {
      forall i, j | 0 <= i < j < |reps| ensures Ascend(reps, i, j) && reps[i].signerId != reps[j].signerId {
        Ascends(reps, i, j);
        LexIrreflexive(Utf8(reps[i].signerId));
      }
    } else {
      var i :| 0 <= i < |reps| - 1 && !InOrder(reps, i);
      assert !Ascend(reps, i, i + 1);
    }
  }

  lemma {:induction false} Ascends(reps: seq<Replacement>, i: nat, j: nat)
    requires CanonicalOrder(reps) && i < j < |reps|
    ensures Ascend(reps, i, j)
    decreases j
  {
    assert InOrder(reps, j - 1);
    if i < j - 1 {
      Ascends(reps, i, j - 1);
      LexTransitive(Utf8(reps[i].signerId), Utf8(reps[j-1].signerId), Utf8(reps[j].signerId));
    }
  }

  // ----- when a target exists -----

  /** The contract that verifies a credential's signatures, if it is not the ledger itself. */
  function VerifierOf(how: SignerMethod): Option<string> {
    match how case External(v, _) => Some(v) case Delegated(_) => None
  }

  /** The replacement is of a declared signer that may be replaced, and its signatures are
      verified by who verified the old ones. */
  ghost predicate Permitted(signers: seq<SignerDecl>, allowed: seq<string>, r: Replacement) {
    && r.signerId in allowed && MethodOf(signers, r.signerId).Some?
    && VerifierOf(r.how) == VerifierOf(MethodOf(signers, r.signerId).value)
  }

  /** So a target has the source's signers with the source's verifiers, in their places:
      nobody gets to name a verifier by recovering. */
  lemma {:induction false} VerifiersKept(signers: seq<SignerDecl>, allowed: seq<string>, reps: seq<Replacement>, k: nat)
    requires ReplaceAll(signers, allowed, reps).Ok? && k < |signers|
    ensures var target := ReplaceAll(signers, allowed, reps).value;
            && |target| == |signers| && target[k].id == signers[k].id
            && VerifierOf(target[k].how) == VerifierOf(signers[k].how)
  {
    if reps != [] {
      var init := reps[..|reps|-1];
      VerifiersKept(signers, allowed, init, k);
      var mid := ReplaceAll(signers, allowed, init).value;
      FindSignerIsFirst(mid, reps[|reps|-1].signerId);
    }
  }

  lemma {:induction false} ReplaceAllIff(signers: seq<SignerDecl>, allowed: seq<string>, reps: seq<Replacement>)
    ensures ReplaceAll(signers, allowed, reps).Ok? <==>
            forall i :: 0 <= i < |reps| ==> Permitted(signers, allowed, reps[i])
  {
    hide MethodOf, VerifierOf;
    if reps != [] {
      var init, last := reps[..|reps|-1], reps[|reps|-1];
      ReplaceAllIff(signers, allowed, init);
      assert forall i :: 0 <= i < |init| ==> init[i] == reps[i];
      if ReplaceAll(signers, allowed, init).Ok? {
        var mid := ReplaceAll(signers, allowed, init).value;
        ReplaceAllEffect(signers, allowed, init, last.signerId);
        KindsKept(signers, allowed, init, last);
        ReplaceOneIff(mid, allowed, last);
      }
    }
  }

  lemma ReplaceOneIff(signers: seq<SignerDecl>, allowed: seq<string>, r: Replacement)
    ensures ReplaceOne(signers, allowed, r).Ok? <==> Permitted(signers, allowed, r)
  {
  }

  /** Earlier replacements keep every kind, so they do not change what is permitted. */
  lemma KindsKept(signers: seq<SignerDecl>, allowed: seq<string>, reps: seq<Replacement>, r: Replacement)
    requires ReplaceAll(signers, allowed, reps).Ok?
    requires forall i :: 0 <= i < |reps| ==> Permitted(signers, allowed, reps[i])
    ensures Permitted(ReplaceAll(signers, allowed, reps).value, allowed, r) <==> Permitted(signers, allowed, r)
  {
    hide MethodOf;
    ReplaceAllEffect(signers, allowed, reps, r.signerId);
    SubstituteDeclared(reps, r.signerId);
  }

  lemma {:induction false} SubstituteDeclared(reps: seq<Replacement>, id: string)
    ensures Substitute(reps, id).Some? ==>
              exists i :: 0 <= i < |reps| && reps[i].signerId == id && reps[i].how == Substitute(reps, id).value
  {
    if reps != [] && reps[|reps|-1].signerId != id {
      SubstituteDeclared(reps[..|reps|-1], id);
      assert forall i :: 0 <= i < |reps| - 1 ==> reps[..|reps|-1][i] == reps[i];
    }
  }

  /** A target exists exactly when the account is enrolled, the ids strictly ascend, a
      lost-key recovery replaces something, every replacement is permitted, and the
      rotation matches the mode. */
  lemma DerivableIff(source: PolicyDoc, current: PolicyDoc, action: RecoveryAction, reps: seq<Replacement>,
                     zk: Option<ZkRotation>)
    ensures Derived(source, current, action, reps, zk).Ok? <==>
            && current.recovery.Some? && CanonicalOrder(reps) && (action == LostKey ==> reps != [])
            && (forall i :: 0 <= i < |reps| ==>
               Permitted(source.signers, current.recovery.value.replaceableIds, reps[i]))
            && (zk.Some? <==> !current.recovery.value.mode.GuardianOnly?)
  {
    hide ReplaceAll, CanonicalOrder, Permitted;
    if current.recovery.Some? { ReplaceAllIff(source.signers, current.recovery.value.replaceableIds, reps); }
  }

  /** A target is the source's version, network and rules with the current recovery
      member, in which at most the enrollment id and the commitment are new. */
  lemma DerivedContent(source: PolicyDoc, current: PolicyDoc, action: RecoveryAction, reps: seq<Replacement>,
                       zk: Option<ZkRotation>)
    requires Derived(source, current, action, reps, zk).Ok?
    ensures var target := Derived(source, current, action, reps, zk).value;
            && target.recovery.Some?
            && (target.version, target.network, target.rules) == (source.version, source.network, source.rules)
            && var was, now := current.recovery.value, target.recovery.value;
            && now == was.(mode := now.mode)
            && (zk.None? ==> now.mode == was.mode)
            && (zk.Some? ==>
                  && !was.mode.GuardianOnly? && !now.mode.GuardianOnly? && (now.mode.ZkOnly? <==> was.mode.ZkOnly?)
                  && (now.mode.Combined? ==> now.mode.guardianSet == was.mode.guardianSet)
                  && now.mode.zkFactor.enrollmentId == zk.value.enrollmentId
                  && now.mode.zkFactor.commitment == zk.value.commitment
                  && now.mode.zkFactor ==
                     was.mode.zkFactor.(enrollmentId := zk.value.enrollmentId, commitment := zk.value.commitment))
  {
    hide ReplaceAll, CanonicalOrder;
  }

  // ----- derivation commutes with lowering -----

  /** The lowered rule with each replaced principal's credential substituted. */
  ghost predicate OnlySignersDiffer(was: LoweredRule, next: LoweredRule, rule: Rule, reps: seq<Replacement>)
    requires !rule.principals.SelfAuthenticating?
  {
    && next == was.(signers := next.signers)
    && |next.signers| == |was.signers| == |rule.principals.signers|
    && forall k :: 0 <= k < |next.signers| ==>
         var s := Substitute(reps, rule.principals.signers[k]);
         next.signers[k] == if s.Some? then s.value else was.signers[k]
  }

  /** Resolution succeeds or fails alike under the same ids. */
  lemma {:induction false} ResolveSameIds(a: seq<SignerDecl>, b: seq<SignerDecl>, rule: string, ids: seq<string>)
    requires SameIds(a, b)
    ensures Resolve(a, rule, ids).Ok? <==> Resolve(b, rule, ids).Ok?
    ensures Resolve(a, rule, ids).Err? ==> Resolve(a, rule, ids) == Resolve(b, rule, ids)
  {
    if ids != [] {
      ResolveSameIds(a, b, rule, ids[..|ids|-1]);
      SameIdsFind(a, b, ids[|ids|-1]);
    }
  }

  lemma RuleCommutes(signers: seq<SignerDecl>, allowed: seq<string>, reps: seq<Replacement>, rule: Rule)
    requires Lowerable(rule) && ReplaceAll(signers, allowed, reps).Ok?
    ensures var target := ReplaceAll(signers, allowed, reps).value;
            match LowerRule(signers, rule)
            case Err(e) => LowerRule(target, rule) == Err(e)
            case Ok(was) =>
              LowerRule(target, rule).Ok? && OnlySignersDiffer(was, LowerRule(target, rule).value, rule, reps)
  {
    hide ReplaceAll, LowerCap, LowerInstall, MethodOf;
    var target := ReplaceAll(signers, allowed, reps).value;
    ReplaceAllEffect(signers, allowed, reps, "");
    if !rule.principals.SelfAuthenticating? {
      var ids := rule.principals.signers;
      ResolveSameIds(signers, target, rule.name, ids);
      if LowerRule(signers, rule).Ok? {
        PrincipalsCommute(signers, allowed, reps, rule.name, ids);
      }
    }
  }

  lemma PrincipalsCommute(signers: seq<SignerDecl>, allowed: seq<string>, reps: seq<Replacement>, rule: string,
                          ids: seq<string>)
    requires ReplaceAll(signers, allowed, reps).Ok?
    requires Resolve(signers, rule, ids).Ok? && Resolve(ReplaceAll(signers, allowed, reps).value, rule, ids).Ok?
    ensures var a, b := Resolve(signers, rule, ids).value,
                        Resolve(ReplaceAll(signers, allowed, reps).value, rule, ids).value;
            && |a| == |b| == |ids|
            && forall k :: 0 <= k < |ids| ==>
                 b[k] == if Substitute(reps, ids[k]).Some? then Substitute(reps, ids[k]).value else a[k]
  {
    hide ReplaceAll, Resolve;
    var target := ReplaceAll(signers, allowed, reps).value;
    ResolvePointwise(signers, rule, ids, 0);
    ResolvePointwise(target, rule, ids, 0);
    forall k | 0 <= k < |ids|
      ensures Resolve(target, rule, ids).value[k] ==
              if Substitute(reps, ids[k]).Some? then Substitute(reps, ids[k]).value
                else Resolve(signers, rule, ids).value[k]
    {
      ResolvePointwise(signers, rule, ids, k);
      ResolvePointwise(target, rule, ids, k);
      ReplaceAllEffect(signers, allowed, reps, ids[k]);
    }
  }

  /** Recovery commutes with lowering: the target compiles exactly when the source does
      (with the same error otherwise), and its plan is the source's plan with only the
      replaced ids' credentials substituted. Names, scopes, expiries, programs, provenance
      preimages and caps are the source's. */
  lemma DeriveCommutes(source: PolicyDoc, current: PolicyDoc, action: RecoveryAction, reps: seq<Replacement>,
                       zk: Option<ZkRotation>, wasmHash: string)
    requires AllLowerable(source.rules) && Derived(source, current, action, reps, zk).Ok?
    ensures var target := Derived(source, current, action, reps, zk).value;
            && target.rules == source.rules
            && match CompileDoc(source, wasmHash)
               case Err(e) => CompileDoc(target, wasmHash) == Err(e)
               case Ok(was) =>
                 && CompileDoc(target, wasmHash).Ok?
                 && var next := CompileDoc(target, wasmHash).value;
                 && |next.rules| == |was.rules| == |source.rules| && next.interpreterWasmHash == was.interpreterWasmHash
                 && forall i :: 0 <= i < |source.rules| ==>
                      !source.rules[i].principals.SelfAuthenticating? &&
                      OnlySignersDiffer(was.rules[i], next.rules[i], source.rules[i], reps)
  {
    hide ReplaceAll, Rotate, CanonicalOrder, OnlySignersDiffer;
    var allowed := current.recovery.value.replaceableIds;
    RulesCommute(source.signers, allowed, reps, source.rules);
    var target := Derived(source, current, action, reps, zk).value;
    if CompileDoc(source, wasmHash).Ok? {
      var was, next := LowerRules(source.signers, source.rules).value, LowerRules(target.signers, source.rules).value;
      SameInstalls(was, next, source.rules, reps);
    }
  }

  lemma SameInstalls(was: seq<LoweredRule>, next: seq<LoweredRule>, rules: seq<Rule>, reps: seq<Replacement>)
    requires |was| == |next| == |rules|
    requires forall i :: 0 <= i < |rules| ==>
               !rules[i].principals.SelfAuthenticating? && OnlySignersDiffer(was[i], next[i], rules[i], reps)
    ensures AnyInstalled(was) <==> AnyInstalled(next)
  {
    assert forall i :: 0 <= i < |rules| ==> next[i].install == was[i].install;
    if AnyInstalled(was) {
      var i :| 0 <= i < |was| && was[i].install.Some?;
      assert next[i].install.Some?;
    }
  }

  lemma {:induction false} RulesCommute(signers: seq<SignerDecl>, allowed: seq<string>, reps: seq<Replacement>,
                                        rules: seq<Rule>)
    requires AllLowerable(rules) && ReplaceAll(signers, allowed, reps).Ok?
    ensures var target := ReplaceAll(signers, allowed, reps).value;
            match LowerRules(signers, rules)
            case Err(e) => LowerRules(target, rules) == Err(e)
            case Ok(was) =>
              LowerRules(target, rules).Ok? &&
              var next := LowerRules(target, rules).value;
              |next| == |was| == |rules| &&
              forall i :: 0 <= i < |rules| ==>
                !rules[i].principals.SelfAuthenticating? && OnlySignersDiffer(was[i], next[i], rules[i], reps)
  {
    hide ReplaceAll, LowerRule, OnlySignersDiffer;
    if rules != [] {
      var init, last := rules[..|rules|-1], rules[|rules|-1];
      RulesCommute(signers, allowed, reps, init);
      RuleCommutes(signers, allowed, reps, last);
      NotSelfAuthenticating(signers, last);
      if LowerRules(signers, rules).Ok? {
        var target := ReplaceAll(signers, allowed, reps).value;
        var was, next := LowerRules(signers, rules).value, LowerRules(target, rules).value;
        var a, b := LowerRules(signers, init).value, LowerRules(target, init).value;
        assert was == a + [LowerRule(signers, last).value] && next == b + [LowerRule(target, last).value];
        forall i | 0 <= i < |rules|
          ensures !rules[i].principals.SelfAuthenticating? && OnlySignersDiffer(was[i], next[i], rules[i], reps)
        {
          if i < |init| { assert init[i] == rules[i] && was[i] == a[i] && next[i] == b[i]; }
        }
      }
    }
  }

  lemma NotSelfAuthenticating(signers: seq<SignerDecl>, rule: Rule)
    requires Lowerable(rule)
    ensures LowerRule(signers, rule).Ok? ==> !rule.principals.SelfAuthenticating?
  {
  }

  // ----- the admin path -----

  datatype CompiledCap = CompiledCap(spendingLimit: int, periodLedgers: u32)

  datatype CompiledRule = CompiledRule(
    name: string, scope: Scope, signers: seq<Credential<string>>, validUntil: Option<u32>,
    install: seq<Program.InstallParams>, cap: seq<CompiledCap>)

  function CredentialsOf(ss: seq<SignerMethod>): (r: Option<seq<Credential<string>>>)
    ensures r.Some? ==> |r.value| == |ss|
  {
    if ss == [] then Some([])
    else
      var init :- CredentialsOf(ss[..|ss|-1]);
      var last :- CredentialOf(ss[|ss|-1]);
      Some(init + [last])
  }

  /** A lowered rule in wire types; a key that is not hex refuses the document. */
  function ToCompiled(r: LoweredRule): Option<CompiledRule> {
    var signers :- CredentialsOf(r.signers);
    Some(CompiledRule(r.name, r.scope, signers, r.validUntil,
                      if r.install.Some? then [r.install.value] else [],
                      if r.cap.Some? then [CompiledCap(r.cap.value.limit, r.cap.value.periodLedgers)] else []))
  }

  predicate IsAdmin(r: CompiledRule) {
    r.scope.SelfAdmin? && r.validUntil.None? && r.signers != [] && r.install == [] && r.cap == []
  }

  /** A policy-free, never-expiring self-admin rule with at least one signer. */
  predicate AdminSurvives(rules: seq<CompiledRule>) {
    exists i :: 0 <= i < |rules| && IsAdmin(rules[i])
  }

  ghost predicate Compiles(lowered: seq<LoweredRule>, rules: seq<CompiledRule>) {
    |lowered| == |rules| && forall i :: 0 <= i < |rules| ==> ToCompiled(lowered[i]) == Some(rules[i])
  }

  /** The document's own admin rule: bare, unanimous, unexpiring, on the account itself. */
  predicate IsAdminRule(rule: Rule) {
    rule.scope.SelfAdmin? && !Attaches(rule) && rule.principals.signers != [] && rule.notAfterLedger.None?
  }

  /** On a compiled document the check finds an admin rule exactly when the document has
      one. */
  lemma AdminIff(doc: PolicyDoc, wasmHash: string, rules: seq<CompiledRule>)
    requires AllLowerable(doc.rules) && CompileDoc(doc, wasmHash).Ok?
    requires Compiles(CompileDoc(doc, wasmHash).value.rules, rules)
    ensures AdminSurvives(rules) <==> exists i :: 0 <= i < |doc.rules| && IsAdminRule(doc.rules[i])
  {
    hide IsAdmin, IsAdminRule, LowerRule, ToCompiled;
    LowerRulesPointwise(doc.signers, doc.rules);
    forall i | 0 <= i < |doc.rules| ensures IsAdmin(rules[i]) <==> IsAdminRule(doc.rules[i]) {
      AdminRuleIff(doc.signers, doc.rules[i], rules[i]);
    }
  }

  lemma AdminRuleIff(signers: seq<SignerDecl>, rule: Rule, compiled: CompiledRule)
    requires Lowerable(rule) && LowerRule(signers, rule).Ok? &&
             ToCompiled(LowerRule(signers, rule).value) == Some(compiled)
    ensures IsAdmin(compiled) <==> IsAdminRule(rule)
  {
    hide Program.Accepted, Resolve;
    LoweredRuleShape(signers, rule, 0, 0);
    LoweredRuleShape(signers, rule, 0, U32_MAX);
  }

  /** A recovery neither bricks nor rescues the admin path. */
  lemma AdminUnchanged(source: PolicyDoc, current: PolicyDoc, action: RecoveryAction, reps: seq<Replacement>,
                       zk: Option<ZkRotation>, wasmHash: string, was: seq<CompiledRule>, next: seq<CompiledRule>)
    requires AllLowerable(source.rules) && Derived(source, current, action, reps, zk).Ok?
    requires CompileDoc(source, wasmHash).Ok? && Compiles(CompileDoc(source, wasmHash).value.rules, was)
    requires var target := Derived(source, current, action, reps, zk).value;
             AllLowerable(target.rules) && CompileDoc(target, wasmHash).Ok? &&
             Compiles(CompileDoc(target, wasmHash).value.rules, next)
    ensures AdminSurvives(was) <==> AdminSurvives(next)
  {
    hide Derived, CompileDoc;
    DeriveCommutes(source, current, action, reps, zk, wasmHash);
    var target := Derived(source, current, action, reps, zk).value;
    var a, b := CompileDoc(source, wasmHash).value.rules, CompileDoc(target, wasmHash).value.rules;
    forall i | 0 <= i < |was| ensures IsAdmin(was[i]) <==> IsAdmin(next[i]) {
      AdminRuleUnchanged(a[i], b[i], source.rules[i], reps, was[i], next[i]);
    }
    if AdminSurvives(was) {
      var i :| 0 <= i < |was| && IsAdmin(was[i]);
      assert IsAdmin(next[i]);
    }
  }

  lemma AdminRuleUnchanged(a: LoweredRule, b: LoweredRule, rule: Rule, reps: seq<Replacement>,
                           was: CompiledRule, next: CompiledRule)
    requires !rule.principals.SelfAuthenticating? && OnlySignersDiffer(a, b, rule, reps)
    requires ToCompiled(a) == Some(was) && ToCompiled(b) == Some(next)
    ensures IsAdmin(was) <==> IsAdmin(next)
  {
  }
}
