/** Lowering documents to plans (crates/perch-compile/src/lib.rs). */
module Compile {
  import opened Base
  import opened Text
  import opened StackMachine
  import opened Program
  import opened Doc
  import Canon

  // Lowered scopes and signers have the document's shapes and are identified with them.

  datatype CapSpec = CapSpec(token: Option<string>, limit: int, periodLedgers: u32)

  datatype LoweredRule = LoweredRule(
    name: string,
    scope: Scope,
    signers: seq<SignerMethod>,
    validUntil: Option<u32>,
    install: Option<InstallParams>,
    cap: Option<CapSpec>)

  datatype Plan = Plan(rules: seq<LoweredRule>, interpreterWasmHash: Option<string>)

  datatype LowerError =
    | UnknownSignerRef(rule: string, id: string)
    | Unsupported(rule: string)
    | InvalidProgram(rule: string, err: ValidationError)
    | InvalidCap(rule: string)

  /** Every list of the rule has a 32-bit length, as on the target the compiler runs on. */
  predicate Countable(rule: Rule) {
    && (!rule.principals.SelfAuthenticating? ==> |rule.principals.signers| <= U32_MAX)
    && (rule.args.Some? ==> |rule.args.value| <= U32_MAX - 2)
  }

  /** What lowering needs of a rule: validation rules out a zero expiry. */
  predicate Lowerable(rule: Rule) {
    Countable(rule) && rule.notAfterLedger != Some(0)
  }

  predicate AllLowerable(rules: seq<Rule>) {
    forall i :: 0 <= i < |rules| ==> Lowerable(rules[i])
  }

  // ----- specification -----

  /** N for an `all` rule, the quorum for a threshold rule. */
  function SignerFloor(rule: Rule): u32
    requires Countable(rule) && !rule.principals.SelfAuthenticating?
  {
    if rule.principals.Threshold? then rule.principals.m else |rule.principals.signers|
  }

  function Resolve(signers: seq<SignerDecl>, rule: string, ids: seq<string>): Result<seq<SignerMethod>, LowerError> {
    if ids == [] then Ok([])
    else
      var init :- Resolve(signers, rule, ids[..|ids|-1]);
      var id := ids[|ids|-1];
      match FindSigner(signers, id)
      case Some(k) => FindSignerIsFirst(signers, id); Ok(init + [signers[k].how])
      case None => Err(UnknownSignerRef(rule, id))
  }

  function Texts(values: seq<string>): (r: seq<seq<byte>>)
    ensures |r| == |values|
  {
    seq(|values|, i requires 0 <= i < |values| => Utf8(values[i]))
  }

  function LowerPred(index: u32, pred: ArgPred): Predicate {
    match pred
    case IsSelf => ArgAddrIsSelf(index)
    case AddressEq(a) => ArgAddrEq(index, a)
    case U32Eq(n) => ArgU32Eq(index, n)
    case StringIn(values) => ArgStrIn(index, Texts(values))
    case StringPrefix(prefix) => ArgStrPrefix(index, Utf8(prefix))
  }

  function ArgLeaves(args: seq<ArgConstraint>): (r: seq<Predicate>)
    ensures |r| == |args|
  {
    seq(|args|, i requires 0 <= i < |args| => LowerPred(args[i].index, args[i].pred))
  }

  function FnLeaves(functions: Option<seq<string>>): seq<Predicate> {
    match functions case Some(fns) => [FnIn(fns)] case None => []
  }

  function ArgsOf(rule: Rule): seq<ArgConstraint> {
    match rule.args case Some(args) => args case None => []
  }

  /** The conjuncts of a rule's program: signer floor, function list, argument predicates. */
  function Leaves(rule: Rule, floor: u32): seq<Predicate> {
    [MinSigners(Max(1, floor))] + FnLeaves(rule.functions) + ArgLeaves(ArgsOf(rule))
  }

  function LeafCount(rule: Rule): (n: nat)
    ensures Countable(rule) ==> n <= U32_MAX
  {
    1 + (if rule.functions.Some? then 1 else 0) + |ArgsOf(rule)|
  }

  function LeafOps(ps: seq<Predicate>): (ops: seq<ProgramOp>)
    ensures |ops| == |ps|
  {
    seq(|ps|, i requires 0 <= i < |ps| => Op.Leaf(ps[i]))
  }

  function Conjunction(ps: seq<Predicate>): RpnProgram
    requires |ps| <= U32_MAX
  {
    RpnProgram(PROGRAM_VERSION, LeafOps(ps) + [Op.All(|ps|)])
  }

  /** A conjunction fits the machine up to 128 leaves; which limit a longer one hits
      first depends on its length. */
  function ProgramOf(rule: Rule, floor: u32): Result<RpnProgram, LowerError>
    requires Countable(rule)
  {
    if LeafCount(rule) <= MAX_STACK_DEPTH then Ok(Conjunction(Leaves(rule, floor)))
    else Err(InvalidProgram(rule.name, if LeafCount(rule) >= MAX_PROGRAM_LEN then TooLarge else StackOverflow))
  }

  function LowerCap(rule: Rule): Result<Option<CapSpec>, LowerError> {
    match rule.cap
    case None => Ok(None)
    case Some(c) =>
      match ParseI128(c.limit)
      case Some(limit) => Ok(Some(CapSpec(c.token, limit, c.periodLedgers)))
      case None => Err(InvalidCap(rule.name))
  }

  /** A bare all-signers rule rides the account's native check; every other rule attaches
      the interpreter. */
  predicate Attaches(rule: Rule) {
    !(rule.principals.AllOfThem? && rule.functions.None? && rule.args.None? && rule.cap.None?)
  }

  function LowerInstall(rule: Rule): Result<Option<InstallParams>, LowerError>
    requires Countable(rule) && !rule.principals.SelfAuthenticating?
  {
    if !Attaches(rule) then Ok(None)
    else
      var program :- ProgramOf(rule, SignerFloor(rule));
      Ok(Some(InstallParams(program, Canon.RulePreimage(rule))))
  }

  /** Dead at or after X becomes the inclusive bound X - 1. */
  function ValidUntil(rule: Rule): Option<u32>
    requires Lowerable(rule)
  {
    match rule.notAfterLedger case Some(x) => Some(x - 1) case None => None
  }

  function LowerRule(signers: seq<SignerDecl>, rule: Rule): Result<LoweredRule, LowerError>
    requires Lowerable(rule)
  {
    if rule.principals.SelfAuthenticating? then Err(Unsupported(rule.name))
    else
      var methods :- Resolve(signers, rule.name, rule.principals.signers);
      var cap :- LowerCap(rule);
      var install :- LowerInstall(rule);
      Ok(LoweredRule(rule.name, rule.scope, methods, ValidUntil(rule), install, cap))
  }

  function LowerRules(signers: seq<SignerDecl>, rules: seq<Rule>): Result<seq<LoweredRule>, LowerError>
    requires AllLowerable(rules)
  {
    if rules == [] then Ok([])
    else
      var init :- LowerRules(signers, rules[..|rules|-1]);
      var last :- LowerRule(signers, rules[|rules|-1]);
      Ok(init + [last])
  }

  predicate AnyInstalled(rules: seq<LoweredRule>) {
    exists i :: 0 <= i < |rules| && rules[i].install.Some?
  }

  function CompileDoc(doc: PolicyDoc, wasmHash: string): Result<Plan, LowerError>
    requires AllLowerable(doc.rules)
  {
    var rules :- LowerRules(doc.signers, doc.rules);
    Ok(Plan(rules, if AnyInstalled(rules) then Some(wasmHash) else None))
  }

  // ----- the loops -----

  method LowerArgPred(index: u32, pred: ArgPred) returns (p: Predicate)
    ensures p == LowerPred(index, pred)
  {
    match pred {
      case StringIn(values) =>
        var texts: seq<seq<byte>> := [];
        for k := 0 to |values|
          invariant texts == Texts(values)[..k]
        {
          texts := texts + [Utf8(values[k])];
        }
        assert texts == Texts(values);
        p := ArgStrIn(index, texts);
      case _ => p := LowerPred(index, pred);
    }
  }

  method BuildProgram(rule: Rule, minSigners: u32) returns (r: Result<RpnProgram, LowerError>)
    requires Countable(rule)
    ensures r == ProgramOf(rule, minSigners)
    ensures r.Ok? ==> Accepted(r.value)
  {
    hide LowerPred, Accepted;
    var ops: seq<ProgramOp> := [Op.Leaf(MinSigners(Max(1, minSigners)))];
    var leaves: u32 := 1;
    ghost var head := [MinSigners(Max(1, minSigners))];
    if rule.functions.Some? {
      var syms: seq<Symbol> := [];
      for k := 0 to |rule.functions.value|
        invariant syms == rule.functions.value[..k]
      {
        syms := syms + [rule.functions.value[k]];
      }
      assert syms == rule.functions.value;
      ops := ops + [Op.Leaf(FnIn(syms))];
      leaves := leaves + 1;
    }
    head := head + FnLeaves(rule.functions);
    assert ops == LeafOps(head);
    if rule.args.Some? {
      var more := PushArgs(rule.args.value);
      ops := ops + more;
      leaves := leaves + |more|;
    }
    LeafOpsConcat(head, ArgLeaves(ArgsOf(rule)));
    assert ops == LeafOps(Leaves(rule, minSigners));
    ops := ops + [Op.All(leaves)];
    var program := RpnProgram(PROGRAM_VERSION, ops);
    var v := ValidateConjunction(program, Leaves(rule, minSigners));
    if v.Err? { return Err(InvalidProgram(rule.name, v.error)); }
    return Ok(program);
  }

  /** One leaf per argument constraint. */
  method PushArgs(args: seq<ArgConstraint>) returns (ops: seq<ProgramOp>)
    ensures ops == LeafOps(ArgLeaves(args))
  {
    ops := [];
    for k := 0 to |args|
      invariant ops == LeafOps(ArgLeaves(args))[..k]
    {
      var p := LowerArgPred(args[k].index, args[k].pred);
      ops := ops + [Op.Leaf(p)];
    }
  }

  lemma LeafOpsConcat(a: seq<Predicate>, b: seq<Predicate>)
    ensures LeafOps(a + b) == LeafOps(a) + LeafOps(b)
  {
  }

  method ValidateConjunction(program: RpnProgram, ghost ps: seq<Predicate>) returns (v: Result<(), ValidationError>)
    requires 1 <= |ps| <= U32_MAX && program == Conjunction(ps)
    ensures v.Ok? <==> |ps| <= MAX_STACK_DEPTH
    ensures v.Ok? ==> Accepted(program)
    ensures v.Err? ==> v.error == if |ps| >= MAX_PROGRAM_LEN then TooLarge else StackOverflow
  {
    ConjunctionSimulates(ps);
    ConjunctionAccepted(ps);
    v := Validate(program);
  }

  method LowerRuleImpl(doc: PolicyDoc, rule: Rule) returns (r: Result<LoweredRule, LowerError>)
    requires Lowerable(rule)
    ensures r == LowerRule(doc.signers, rule)
  {
    if rule.principals.SelfAuthenticating? { return Err(Unsupported(rule.name)); }
    var ids, minSigners := rule.principals.signers, SignerFloor(rule);
    var signers: seq<SignerMethod> := [];
    for k := 0 to |ids|
      invariant Resolve(doc.signers, rule.name, ids[..k]) == Ok(signers)
    {
      assert ids[..k+1][..k] == ids[..k];
      var at := FindSigner(doc.signers, ids[k]);
      if at.None? {
        ResolveStops(doc.signers, rule.name, ids, k + 1);
        return Err(UnknownSignerRef(rule.name, ids[k]));
      }
      FindSignerIsFirst(doc.signers, ids[k]);
      signers := signers + [doc.signers[at.value].how];
    }
    assert ids[..|ids|] == ids;
    var cap :- LowerCap(rule);
    var install: Option<InstallParams> := None;
    if !(rule.principals.AllOfThem? && rule.functions.None? && rule.args.None? && cap.None?) {
      var program := BuildProgram(rule, minSigners);
      if program.Err? { return Err(program.error); }
      install := Some(InstallParams(program.value, Canon.RulePreimage(rule)));
    }
    return Ok(LoweredRule(rule.name, rule.scope, signers, ValidUntil(rule), install, cap));
  }

  method CompileImpl(doc: PolicyDoc, wasmHash: string) returns (r: Result<Plan, LowerError>)
    requires AllLowerable(doc.rules)
    ensures r == CompileDoc(doc, wasmHash)
  {
    hide LowerRule, AnyInstalled, Countable;
    var rules: seq<LoweredRule> := [];
    var anyInterpreter := false;
    assert !AnyInstalled([]) by { NoneInstalled(); }
    for k := 0 to |doc.rules|
      invariant LowerRules(doc.signers, doc.rules[..k]) == Ok(rules)
      invariant anyInterpreter == AnyInstalled(rules)
    {
      assert doc.rules[..k+1][..k] == doc.rules[..k];
      var lowered := LowerRuleImpl(doc, doc.rules[k]);
      if lowered.Err? {
        LowerRulesStops(doc.signers, doc.rules, k + 1);
        return Err(lowered.error);
      }
      if lowered.value.install.Some? { anyInterpreter := true; }
      AnyInstalledAppend(rules, lowered.value);
      rules := rules + [lowered.value];
    }
    assert doc.rules[..|doc.rules|] == doc.rules;
    return Ok(Plan(rules, if anyInterpreter then Some(wasmHash) else None));
  }

  lemma NoneInstalled()
    ensures !AnyInstalled([])
  {
  }

  lemma AnyInstalledAppend(rules: seq<LoweredRule>, last: LoweredRule)
    ensures AnyInstalled(rules + [last]) <==> AnyInstalled(rules) || last.install.Some?
  {
    var all := rules + [last];
    if AnyInstalled(rules) {
      var i :| 0 <= i < |rules| && rules[i].install.Some?;
      assert all[i].install.Some?;
    }
    if last.install.Some? { assert all[|rules|].install.Some?; }
  }

  /** The first failure is the result of the whole list. */
  lemma {:induction false} ResolveStops(signers: seq<SignerDecl>, rule: string, ids: seq<string>, k: nat)
    requires k <= |ids| && Resolve(signers, rule, ids[..k]).Err?
    ensures Resolve(signers, rule, ids) == Resolve(signers, rule, ids[..k])
  {
    if k == |ids| {
      assert ids[..k] == ids;
    } else {
      assert ids[..|ids|-1][..k] == ids[..k];
      ResolveStops(signers, rule, ids[..|ids|-1], k);
    }
  }

  lemma {:induction false} LowerRulesStops(signers: seq<SignerDecl>, rules: seq<Rule>, k: nat)
    requires AllLowerable(rules)
    requires k <= |rules| && LowerRules(signers, rules[..k]).Err?
    ensures LowerRules(signers, rules) == LowerRules(signers, rules[..k])
  {
    if k == |rules| {
      assert rules[..k] == rules;
    } else {
      assert rules[..|rules|-1][..k] == rules[..k];
      LowerRulesStops(signers, rules[..|rules|-1], k);
    }
  }

  // ----- conjunction programs -----

  function LeafTrees(ps: seq<Predicate>): (ts: seq<Tree<Predicate>>)
    ensures |ts| == |ps|
  {
    seq(|ps|, i requires 0 <= i < |ps| => Node(Op.Leaf(ps[i]), []))
  }

  function ConjunctionTree(ps: seq<Predicate>): Tree<Predicate>
    requires |ps| <= U32_MAX
  {
    Node(Op.All(|ps|), LeafTrees(ps))
  }

  lemma {:induction false} LeafPostfix(ps: seq<Predicate>)
    ensures PostfixAll(LeafTrees(ps)) == LeafOps(ps)
    ensures PeakAll(LeafTrees(ps)) == |ps|
  {
    if ps != [] {
      var n := |ps| - 1;
      LeafPostfix(ps[..n]);
      assert LeafTrees(ps)[..n] == LeafTrees(ps[..n]);
      var t := LeafTrees(ps)[n];
      assert Postfix(t) == [Op.Leaf(ps[n])];
      assert PeakAll<Predicate>([]) == 0 && Peak(t) == 1;
      assert LeafOps(ps) == LeafOps(ps[..n]) + [Op.Leaf(ps[n])];
    }
  }

  lemma ConjunctionSpells(ps: seq<Predicate>)
    requires 1 <= |ps| <= U32_MAX
    ensures WellFormed(ConjunctionTree(ps)) && Postfix(ConjunctionTree(ps)) == Conjunction(ps).ops
    ensures Spells(Conjunction(ps).ops, ConjunctionTree(ps)) <==> |ps| <= MAX_STACK_DEPTH
  {
    LeafPostfix(ps);
    var ts := LeafTrees(ps);
    forall i | 0 <= i < |ts| ensures WellFormed(ts[i]) {
      assert ts[i].kids == [];
    }
    assert AllWellFormed(ts);
    assert WellFormed(ConjunctionTree(ps));
    assert Peak(ConjunctionTree(ps)) == |ps|;
    assert Postfix(ConjunctionTree(ps)) == Conjunction(ps).ops;
  }

  lemma ConjunctionAccepted(ps: seq<Predicate>)
    requires 1 <= |ps| <= U32_MAX
    ensures Accepted(Conjunction(ps)) <==> |ps| <= MAX_STACK_DEPTH
  {
    ConjunctionSpells(ps);
    forall t | Spells(Conjunction(ps).ops, t) ensures t == ConjunctionTree(ps) {
      ParseUnique(t, ConjunctionTree(ps));
    }
  }

  lemma {:induction false} LeavesSimulate(ps: seq<Predicate>, rest: seq<ProgramOp>, depth: nat)
    ensures Simulate(LeafOps(ps) + rest, depth) ==
            if ps == [] || depth + |ps| <= MAX_STACK_DEPTH then Simulate(rest, depth + |ps|) else Err(StackOverflow)
  {
    var ops := LeafOps(ps) + rest;
    if ps == [] {
      assert ops == rest;
    } else {
      assert ops[0] == Op.Leaf(ps[0]);
      assert ops[1..] == LeafOps(ps[1..]) + rest;
      LeavesSimulate(ps[1..], rest, depth + 1);
    }
  }

  lemma ConjunctionSimulates(ps: seq<Predicate>)
    requires 1 <= |ps| <= U32_MAX
    ensures Simulate(Conjunction(ps).ops, 0) == if |ps| <= MAX_STACK_DEPTH then Ok(1) else Err(StackOverflow)
  {
    var last: seq<ProgramOp> := [Op.All(|ps|)];
    LeavesSimulate(ps, last, 0);
    assert last[1..] == [];
  }

  lemma {:induction false} AllOfTrue(vs: seq<Verdict>)
    ensures AllOf(vs) == True <==> forall i :: 0 <= i < |vs| ==> vs[i] == True
  {
    if vs != [] {
      AllOfTrue(vs[1..]);
      assert forall i :: 1 <= i < |vs| ==> vs[i] == vs[1..][i-1];
      assert (forall i :: 0 <= i < |vs| ==> vs[i] == True) ==> forall j :: 0 <= j < |vs| - 1 ==> vs[1..][j] == True;
    }
  }

  lemma {:induction false} AllOfLeast(vs: seq<Verdict>, i: nat)
    requires i < |vs|
    ensures AllOf(vs).Leq(vs[i])
  {
    if i > 0 { AllOfLeast(vs[1..], i - 1); }
  }

  /** The verdicts of the leaves, in order. */
  function LeafVerdicts(inp: EvalInputs, ps: seq<Predicate>): (vs: seq<Verdict>)
    ensures |vs| == |ps|
  {
    seq(|ps|, i requires 0 <= i < |ps| => LeafVerdict(inp, ps[i]))
  }

  lemma ConjunctionVerdict(inp: EvalInputs, ps: seq<Predicate>)
    requires 1 <= |ps| <= MAX_STACK_DEPTH
    ensures OpsVerdict(inp, Conjunction(ps).ops) == AllOf(LeafVerdicts(inp, ps))
  {
    ConjunctionSpells(ps);
    var t := ConjunctionTree(ps);
    VerdictOfTree(inp, Conjunction(ps).ops, t);
    assert FoldAll(Verdicts(inp), t.kids) == LeafVerdicts(inp, ps);
  }
}
