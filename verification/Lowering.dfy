/** What lowering guarantees: the program of a rule means the rule, and a valid document
    fails to lower only for two reasons. */
module Lowering {
  import opened Base
  import opened Text
  import opened Program
  import opened Doc
  import opened Compile
  import Canon
  import Validate

  // ----- the document's own meaning -----

  /** One argument constraint, read from the document: the argument is there, has the
      predicate's type, and satisfies it. */
  predicate ArgHolds(inp: EvalInputs, c: ArgConstraint) {
    match (Arg(inp, c.index), c.pred)
    case (Some(AddressVal(a)), IsSelf) => a == inp.selfAddr
    case (Some(AddressVal(a)), AddressEq(b)) => a == b
    case (Some(U32Val(n)), U32Eq(m)) => n == m
    case (Some(StringVal(s)), StringIn(values)) =>
      |s| <= MAX_STR_ARG_LEN && exists i :: 0 <= i < |values| && Utf8(values[i]) == s
    case (Some(StringVal(s)), StringPrefix(p)) => |Utf8(p)| <= MAX_STR_ARG_LEN && Utf8(p) <= s
    case _ => false
  }

  predicate FunctionHolds(inp: EvalInputs, functions: Option<seq<string>>) {
    functions.Some? ==> inp.context.ContractCall? && inp.context.fnName in functions.value
  }

  predicate ArgsHold(inp: EvalInputs, args: seq<ArgConstraint>) {
    forall i :: 0 <= i < |args| ==> ArgHolds(inp, args[i])
  }

  /** The rule allows the invocation: enough signers, a listed function, every argument
      constraint met. */
  predicate RuleAllows(inp: EvalInputs, rule: Rule)
    requires Countable(rule) && !rule.principals.SelfAuthenticating?
  {
    && inp.signerCount >= Max(1, SignerFloor(rule))
    && FunctionHolds(inp, rule.functions)
    && ArgsHold(inp, ArgsOf(rule))
  }

  lemma PredMeaning(inp: EvalInputs, c: ArgConstraint)
    ensures LeafVerdict(inp, LowerPred(c.index, c.pred)) == True <==> ArgHolds(inp, c)
  {
    match c.pred {
      case StringIn(values) =>
        if Arg(inp, c.index).Some? && Arg(inp, c.index).value.StringVal? {
          var s := Arg(inp, c.index).value.text;
          if i :| 0 <= i < |values| && Utf8(values[i]) == s {
            assert Texts(values)[i] == s;
          }
        }
      case _ =>
    }
  }

  ghost predicate AllTrue(inp: EvalInputs, ps: seq<Predicate>) {
    forall i :: 0 <= i < |ps| ==> LeafVerdict(inp, ps[i]) == True
  }

  lemma AllTrueConcat(inp: EvalInputs, a: seq<Predicate>, b: seq<Predicate>)
    ensures AllTrue(inp, a + b) <==> AllTrue(inp, a) && AllTrue(inp, b)
  {
    hide LeafVerdict;
    if AllTrue(inp, a + b) {
      forall i | 0 <= i < |a| ensures LeafVerdict(inp, a[i]) == True { assert (a + b)[i] == a[i]; }
      forall i | 0 <= i < |b| ensures LeafVerdict(inp, b[i]) == True { assert (a + b)[|a| + i] == b[i]; }
    }
  }

  lemma ArgLeavesMeaning(inp: EvalInputs, args: seq<ArgConstraint>)
    ensures AllTrue(inp, ArgLeaves(args)) <==> ArgsHold(inp, args)
  {
    hide LeafVerdict, LowerPred, ArgHolds;
    forall i | 0 <= i < |args|
      ensures LeafVerdict(inp, ArgLeaves(args)[i]) == True <==> ArgHolds(inp, args[i])
    {
      PredMeaning(inp, args[i]);
    }
  }

  lemma FnLeavesMeaning(inp: EvalInputs, functions: Option<seq<string>>)
    ensures AllTrue(inp, FnLeaves(functions)) <==> FunctionHolds(inp, functions)
  {
    if functions.Some? { assert FnLeaves(functions)[0] == FnIn(functions.value); }
  }

  lemma LeavesMeaning(inp: EvalInputs, rule: Rule)
    requires Countable(rule) && !rule.principals.SelfAuthenticating?
    ensures AllTrue(inp, Leaves(rule, SignerFloor(rule))) <==> RuleAllows(inp, rule)
  {
    var floor := MinSigners(Max(1, SignerFloor(rule)));
    AllTrueConcat(inp, [floor] + FnLeaves(rule.functions), ArgLeaves(ArgsOf(rule)));
    AllTrueConcat(inp, [floor], FnLeaves(rule.functions));
    assert AllTrue(inp, [floor]) <==> inp.signerCount >= Max(1, SignerFloor(rule)) by {
      assert [floor][0] == floor;
    }
    FnLeavesMeaning(inp, rule.functions);
    ArgLeavesMeaning(inp, ArgsOf(rule));
  }

  /** Compiler correctness: the machine answers `True` on a rule's program exactly when
      the rule, read from the document, allows the invocation. */
  lemma ProgramMeaning(inp: EvalInputs, rule: Rule)
    requires Countable(rule) && !rule.principals.SelfAuthenticating?
    requires ProgramOf(rule, SignerFloor(rule)).Ok?
    ensures OpsVerdict(inp, ProgramOf(rule, SignerFloor(rule)).value.ops) == True <==> RuleAllows(inp, rule)
  {
    hide LeafVerdict, RuleAllows;
    var ps := Leaves(rule, SignerFloor(rule));
    ConjunctionVerdict(inp, ps);
    AllOfTrue(LeafVerdicts(inp, ps));
    forall i | 0 <= i < |ps| ensures LeafVerdicts(inp, ps)[i] == LeafVerdict(inp, ps[i]) {
    }
    LeavesMeaning(inp, rule);
  }

  /** No attached program accepts an invocation without signers, whatever the rule says:
      its verdict is a definite `False`. */
  lemma ZeroSignersDenied(inp: EvalInputs, signers: seq<SignerDecl>, rule: Rule)
    requires Lowerable(rule) && LowerRule(signers, rule).Ok?
    requires LowerRule(signers, rule).value.install.Some?
    requires inp.signerCount == 0
    ensures OpsVerdict(inp, LowerRule(signers, rule).value.install.value.program.ops) == False
  {
    var ps := Leaves(rule, SignerFloor(rule));
    ConjunctionVerdict(inp, ps);
    AllOfLeast(LeafVerdicts(inp, ps), 0);
  }

  // ----- which documents lower -----

  lemma {:induction false} ResolveDeclared(signers: seq<SignerDecl>, rule: string, ids: seq<string>)
    requires forall i :: 0 <= i < |ids| ==> ids[i] in Validate.Declared(signers)
    ensures Resolve(signers, rule, ids).Ok?
  {
    if ids != [] {
      var id := ids[|ids|-1];
      ResolveDeclared(signers, rule, ids[..|ids|-1]);
      FindSignerIsFirst(signers, id);
      var s :| s in signers && s.id == id;
      var k :| 0 <= k < |signers| && signers[k] == s;
    }
  }

  /** What stops a valid rule from lowering: no program op for it, or too many leaves. */
  predicate Blocked(rule: Rule) {
    rule.principals.SelfAuthenticating? || (Attaches(rule) && LeafCount(rule) > MAX_STACK_DEPTH)
  }

  lemma ValidRuleLowers(signers: seq<SignerDecl>, rule: Rule)
    requires Countable(rule) && Validate.ValidRule(rule, Validate.Declared(signers))
    ensures Lowerable(rule)
    ensures LowerRule(signers, rule).Err? <==> Blocked(rule)
  {
    if !rule.principals.SelfAuthenticating? {
      ResolveDeclared(signers, rule.name, rule.principals.signers);
    }
  }

  /** The rules of a plan are the lowered rules, one for one. */
  lemma {:induction false} LowerRulesPointwise(signers: seq<SignerDecl>, rules: seq<Rule>)
    requires AllLowerable(rules)
    ensures LowerRules(signers, rules).Ok? <==>
            forall i :: 0 <= i < |rules| ==> LowerRule(signers, rules[i]).Ok?
    ensures LowerRules(signers, rules).Ok? ==>
              var lowered := LowerRules(signers, rules).value;
              |lowered| == |rules| &&
              forall i :: 0 <= i < |rules| ==> LowerRule(signers, rules[i]) == Ok(lowered[i])
  {
    hide LowerRule;
    if rules != [] {
      var init := rules[..|rules|-1];
      LowerRulesPointwise(signers, init);
      assert forall i :: 0 <= i < |init| ==> init[i] == rules[i];
      if LowerRules(signers, init).Ok? && LowerRule(signers, rules[|rules|-1]).Ok? {
        var lowered := LowerRules(signers, rules).value;
        assert forall i :: 0 <= i < |init| ==> lowered[i] == LowerRules(signers, init).value[i];
      }
    }
  }

  /** Totality: a document that validation accepts fails to compile exactly when some rule
      is self-authenticating, or attaches a program of more than 128 leaves. In
      particular every signer id resolves, every cap parses and no expiry underflows. */
  lemma CompileTotality(doc: PolicyDoc, wasmHash: string)
    requires Validate.ValidDoc(doc)
    requires forall i :: 0 <= i < |doc.rules| ==> Countable(doc.rules[i])
    ensures AllLowerable(doc.rules)
    ensures CompileDoc(doc, wasmHash).Err? <==> exists i :: 0 <= i < |doc.rules| && Blocked(doc.rules[i])
  {
    hide LowerRule, Blocked, Validate.ValidRule, Countable;
    forall i | 0 <= i < |doc.rules|
      ensures Lowerable(doc.rules[i]) && (LowerRule(doc.signers, doc.rules[i]).Err? <==> Blocked(doc.rules[i]))
    {
      ValidRuleLowers(doc.signers, doc.rules[i]);
    }
    LowerRulesPointwise(doc.signers, doc.rules);
  }

  /** The document's expiry: dead at or after the bound. */
  predicate Unexpired(rule: Rule, ledger: u32) {
    rule.notAfterLedger.Some? ==> ledger < rule.notAfterLedger.value
  }

  /** The account's expiry: the bound is the last live ledger. */
  predicate Live(rule: LoweredRule, ledger: u32) {
    rule.validUntil.Some? ==> ledger <= rule.validUntil.value
  }

  /** Each lowered rule is live exactly while the document's rule is unexpired, carries in
      order the declared credential of each principal, meters the declared cap, and attaches
      a program (always an accepted one, marked with the rule's own preimage) exactly when
      the rule is constrained. */
  lemma LoweredRuleShape(signers: seq<SignerDecl>, rule: Rule, k: nat, ledger: u32)
    requires Lowerable(rule) && LowerRule(signers, rule).Ok?
    ensures var r := LowerRule(signers, rule).value;
            && |r.signers| == |rule.principals.signers|
            && (k < |r.signers| ==>
                  exists j :: 0 <= j < |signers| && signers[j].id == rule.principals.signers[k] &&
                    signers[j].how == r.signers[k])
            && (r.install.Some? <==> Attaches(rule))
            && (r.install.Some? ==> Accepted(r.install.value.program))
            && (Live(r, ledger) <==> Unexpired(rule, ledger))
            && r.name == rule.name && r.scope == rule.scope
            && (r.install.Some? ==> r.install.value.provenance == Canon.RulePreimage(rule))
            && (r.cap.Some? <==> rule.cap.Some?)
            && (r.cap.Some? ==>
                  && ParseI128(rule.cap.value.limit) == Some(r.cap.value.limit)
                  && r.cap.value.token == rule.cap.value.token &&
                     r.cap.value.periodLedgers == rule.cap.value.periodLedgers)
  {
    ResolvePointwise(signers, rule.name, rule.principals.signers, k);
    if Attaches(rule) { ConjunctionAccepted(Leaves(rule, SignerFloor(rule))); }
  }

  lemma {:induction false} ResolvePointwise(signers: seq<SignerDecl>, rule: string, ids: seq<string>, k: nat)
    requires Resolve(signers, rule, ids).Ok?
    ensures |Resolve(signers, rule, ids).value| == |ids|
    ensures k < |ids| ==>
              FindSigner(signers, ids[k]).Some? && FindSigner(signers, ids[k]).value < |signers| &&
              var d := signers[FindSigner(signers, ids[k]).value];
              d.id == ids[k] && Resolve(signers, rule, ids).value[k] == d.how
  {
    if ids != [] {
      FindSignerIsFirst(signers, ids[|ids|-1]);
      ResolvePointwise(signers, rule, ids[..|ids|-1], k);
    }
  }
}
