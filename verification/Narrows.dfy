/** Semantic attenuation over the encoder
    (crates/perch-analyze/src/lib.rs). The solver is a parameter. */
module Narrows {
  import opened Base
  import opened Text
  import opened Program
  import opened Doc
  import opened Compile
  import opened Lowering
  import opened Encoder
  import opened Agreement
  import opened Relocation
  import opened Scripts
  import Validate

  // ----- the check -----

  datatype WideningFinding =
    | AddedRule(rule: string)
    | ScopeChanged(rule: string)
    | SemanticWidening(rule: string, verdict: SolverVerdict)
    | ExpiryExtended(rule: string)
    | CapLoosened(rule: string)
    | Undecided(rule: string, verdict: SolverVerdict)

  function FindRule(rules: seq<Rule>, name: string): Option<nat> {
    if rules == [] then None
    else if rules[0].name == name then Some(0)
    else match FindRule(rules[1..], name) case Some(k) => Some(k + 1) case None => None
  }

  lemma {:induction false} FindRuleIsFirst(rules: seq<Rule>, name: string)
    ensures FindRule(rules, name).None? <==> forall k :: 0 <= k < |rules| ==> rules[k].name != name
    ensures FindRule(rules, name).Some? ==>
              var k := FindRule(rules, name).value;
              k < |rules| && rules[k].name == name && forall j :: 0 <= j < k ==> rules[j].name != name
  {
    if rules != [] && rules[0].name != name {
      FindRuleIsFirst(rules[1..], name);
      assert forall k :: 1 <= k < |rules| ==> rules[k] == rules[1..][k-1];
      assert FindRule(rules[1..], name).None? ==>
             forall k :: 0 <= k < |rules| ==> k == 0 || rules[k] == rules[1..][k-1];
    }
  }

  /** The interning table after the child's and then the parent's term. */
  function BothIds(crule: Rule, prule: Rule): AddressIds { InternArgs(RuleIds(crule), ArgsOf(prule)) }

  lemma BothIdsKnow(crule: Rule, prule: Rule)
    ensures Interned(RuleIds(crule)) && KnowsAll(RuleIds(crule), ArgsOf(crule))
    ensures Interned(BothIds(crule, prule)) && KnowsAll(BothIds(crule, prule), ArgsOf(prule))
    ensures KnowsAll(BothIds(crule, prule), ArgsOf(crule))
    ensures RuleTerm(BothIds(crule, prule), crule) == RuleTerm(RuleIds(crule), crule)
  {
    InternArgsGrows(map[], ArgsOf(crule));
    InternArgsGrows(RuleIds(crule), ArgsOf(prule));
    RuleTermStable(RuleIds(crule), BothIds(crule, prule), crule);
  }

  /** Child allows and parent does not. */
  function NarrowQuery(crule: Rule, prule: Rule): Script {
    BothIdsKnow(crule, prule);
    Script(Indexes(ArgsOf(crule)) + Indexes(ArgsOf(prule)),
           [RuleTerm(RuleIds(crule), crule), Negated(RuleTerm(BothIds(crule, prule), prule))])
  }

  predicate ExpiryLonger(parent: Option<u32>, child: Option<u32>) {
    match (parent, child)
    case (Some(p), Some(c)) => c > p
    case (Some(_), None) => true
    case (None, _) => false
  }

  /** An unreadable limit counts as the largest one. */
  function CapLimit(cap: CapConstraint): int {
    match ParseI128(cap.limit) case Some(n) => n case None => I128_MAX
  }

  predicate CapLooser(parent: Option<CapConstraint>, child: Option<CapConstraint>) {
    match (parent, child)
    case (Some(p), Some(c)) => p.token != c.token || CapLimit(c) > CapLimit(p) || c.periodLedgers < p.periodLedgers
    case (Some(_), None) => true
    case (None, _) => false
  }

  function SemanticFindings(rule: string, v: SolverVerdict): seq<WideningFinding> {
    match v
    case Unsat => []
    case Sat(_) => [SemanticWidening(rule, v)]
    case Undetermined(_) => [Undecided(rule, v)]
  }

  function MatchedFindings(solver: Solver, prule: Rule, crule: Rule): seq<WideningFinding> {
    if prule.scope != crule.scope then [ScopeChanged(crule.name)]
    else
      SemanticFindings(crule.name, solver(NarrowQuery(crule, prule)))
      + (if ExpiryLonger(prule.notAfterLedger, crule.notAfterLedger) then [ExpiryExtended(crule.name)] else [])
      + (if CapLooser(prule.cap, crule.cap) then [CapLoosened(crule.name)] else [])
  }

  function RuleFindings(solver: Solver, parent: seq<Rule>, crule: Rule): seq<WideningFinding> {
    match FindRule(parent, crule.name)
    case None => [AddedRule(crule.name)]
    case Some(k) => FindRuleIsFirst(parent, crule.name); MatchedFindings(solver, parent[k], crule)
  }

  function Findings(solver: Solver, parent: seq<Rule>, child: seq<Rule>): seq<WideningFinding> {
    if child == [] then []
    else Findings(solver, parent, child[..|child|-1]) + RuleFindings(solver, parent, child[|child|-1])
  }

  method EncodeQuery(crule: Rule, prule: Rule) returns (script: Script)
    ensures script == NarrowQuery(crule, prule)
  {
    hide RuleTerm, InternArgs, Indexes, Interned, Extends, KnowsAll;
    var enc := new SymbolicEncoder();
    var childAllow := enc.RuleAllows(crule);
    var parentAllow := enc.RuleAllows(prule);
    script := Script(enc.argIndexes, [childAllow, Negated(parentAllow)]);
    assert enc.argIndexes == Indexes(ArgsOf(crule)) + Indexes(ArgsOf(prule));
  }

  method CheckMatched(solver: Solver, prule: Rule, crule: Rule) returns (findings: seq<WideningFinding>)
    ensures findings == MatchedFindings(solver, prule, crule)
  {
    hide NarrowQuery, ExpiryLonger, CapLooser;
    findings := [];
    if prule.scope != crule.scope {
      findings := findings + [ScopeChanged(crule.name)];
      return;
    }
    var script := EncodeQuery(crule, prule);
    var v := solver(script);
    match v {
      case Unsat =>
      case Sat(_) => findings := findings + [SemanticWidening(crule.name, v)];
      case Undetermined(_) => findings := findings + [Undecided(crule.name, v)];
    }
    if ExpiryLonger(prule.notAfterLedger, crule.notAfterLedger) {
      findings := findings + [ExpiryExtended(crule.name)];
    }
    if CapLooser(prule.cap, crule.cap) {
      findings := findings + [CapLoosened(crule.name)];
    }
  }

  method CheckNarrows(solver: Solver, parent: PolicyDoc, child: PolicyDoc) returns (findings: seq<WideningFinding>)
    ensures findings == Findings(solver, parent.rules, child.rules)
  {
    hide MatchedFindings;
    findings := [];
    for k := 0 to |child.rules|
      invariant findings == Findings(solver, parent.rules, child.rules[..k])
    {
      assert child.rules[..k+1][..k] == child.rules[..k];
      var crule := child.rules[k];
      var at := FindRule(parent.rules, crule.name);
      FindRuleIsFirst(parent.rules, crule.name);
      if at.None? {
        findings := findings + [AddedRule(crule.name)];
      } else {
        var more := CheckMatched(solver, parent.rules[at.value], crule);
        findings := findings + more;
      }
    }
    assert child.rules[..|child.rules|] == child.rules;
  }

  // ----- runs under a rule -----

  /** One authorized call: the invocation (with its ledger) and the amount it moves. */
  datatype Event = Event(inp: EvalInputs, amount: nat)

  /** What every rule that lowers satisfies. */
  predicate Analyzable(rule: Rule) {
    Countable(rule) && !rule.principals.SelfAuthenticating? && LeafCount(rule) <= MAX_STACK_DEPTH
  }

  lemma ValidCompiledAnalyzable(doc: PolicyDoc, wasmHash: string, i: nat)
    requires Validate.ValidDoc(doc) && AllLowerable(doc.rules) && CompileDoc(doc, wasmHash).Ok?
    requires i < |doc.rules|
    ensures Analyzable(doc.rules[i]) && Unmixed(doc.rules[i])
  {
    hide LowerRule, Validate.ValidRule, Validate.ValidSigners, Validate.ValidRecovery, Analyzable, Unmixed;
    LowerRulesPointwise(doc.signers, doc.rules);
    assert Validate.ValidRule(doc.rules[i], Validate.Declared(doc.signers));
    LoweredAnalyzable(doc.signers, doc.rules[i]);
    ValidUnmixed(doc.rules[i], Validate.Declared(doc.signers));
  }

  lemma LoweredAnalyzable(signers: seq<SignerDecl>, rule: Rule)
    requires Lowerable(rule) && LowerRule(signers, rule).Ok?
    ensures Analyzable(rule)
  {
  }

  lemma ValidUnmixed(rule: Rule, declared: set<string>)
    requires Validate.ValidRule(rule, declared)
    ensures Unmixed(rule)
  {
    hide Validate.ValidPrincipals, Validate.ValidFunctions, Validate.ValidCap, Validate.ValidPred,
      Validate.IsContractAddress;
  }

  predicate ProgramAllows(rule: Rule, inp: EvalInputs)
    requires Analyzable(rule)
  {
    OpsVerdict(inp, ProgramOf(rule, SignerFloor(rule)).value.ops) == True
  }

  /** Everything spent less than `window` ledgers before `now`. */
  function SpentWithin(run: seq<Event>, now: u32, window: int): nat {
    if run == [] then 0
    else
      var last := run[|run|-1];
      SpentWithin(run[..|run|-1], now, window) + if now - last.inp.ledger < window then last.amount else 0
  }

  /** At every event the rolling total stays within the limit. `edge` shifts where exactly
      an entry leaves the window. */
  predicate RespectsCap(run: seq<Event>, limit: int, period: u32, edge: int) {
    forall k :: 0 <= k < |run| ==> SpentWithin(run[..k+1], run[k].inp.ledger, period + edge) <= limit
  }

  /** The rule admits the whole run: each call allowed and in time, the spending within
      the cap. */
  predicate Admits(rule: Rule, run: seq<Event>, edge: int)
    requires Analyzable(rule)
  {
    && (forall k :: 0 <= k < |run| ==> ProgramAllows(rule, run[k].inp) && Unexpired(rule, run[k].inp.ledger))
    && (rule.cap.Some? ==> RespectsCap(run, CapLimit(rule.cap.value), rule.cap.value.periodLedgers, edge))
  }

  lemma {:induction false} WiderWindowSpendsMore(run: seq<Event>, now: u32, a: int, b: int)
    requires a <= b
    ensures SpentWithin(run, now, a) <= SpentWithin(run, now, b)
  {
    if run != [] { WiderWindowSpendsMore(run[..|run|-1], now, a, b); }
  }

  lemma TighterCap(run: seq<Event>, p: CapConstraint, c: CapConstraint, edge: int)
    requires CapLimit(c) <= CapLimit(p) && p.periodLedgers <= c.periodLedgers
    requires RespectsCap(run, CapLimit(c), c.periodLedgers, edge)
    ensures RespectsCap(run, CapLimit(p), p.periodLedgers, edge)
  {
    hide CapLimit;
    forall k | 0 <= k < |run|
      ensures SpentWithin(run[..k+1], run[k].inp.ledger, p.periodLedgers + edge) <= CapLimit(p)
    {
      WiderWindowSpendsMore(run[..k+1], run[k].inp.ledger, p.periodLedgers + edge, c.periodLedgers + edge);
    }
  }

  // ----- soundness -----

  lemma TermMeaning(m: Model, inp: EvalInputs, ids: AddressIds, rule: Rule)
    requires Analyzable(rule) && KnowsAll(ids, ArgsOf(rule)) && Mirrors(m, inp, ids, rule)
    ensures Holds(m, RuleTerm(ids, rule)) <==> ProgramAllows(rule, inp)
  {
    hide Mirrors, RuleTerm, Holds, OpsVerdict, RuleAllows;
    RuleTermHolds(m, inp, ids, rule);
    ProgramMeaning(inp, rule);
  }

  lemma QuerySatisfied(m: Model, crule: Rule, prule: Rule)
    ensures Satisfies(m, NarrowQuery(crule, prule)) <==>
            && WellSorted(m, Indexes(ArgsOf(crule)) + Indexes(ArgsOf(prule)))
            && KnowsAll(BothIds(crule, prule), ArgsOf(crule)) && KnowsAll(BothIds(crule, prule), ArgsOf(prule))
            && Holds(m, RuleTerm(BothIds(crule, prule), crule))
            && !Holds(m, RuleTerm(BothIds(crule, prule), prule))
  {
    hide RuleTerm, WellSorted, KnowsAll, Interned, InternArgs;
    BothIdsKnow(crule, prule);
    var ts := NarrowQuery(crule, prule).asserts;
    assert ts[0] == RuleTerm(BothIds(crule, prule), crule);
    assert ts[1] == Negated(RuleTerm(BothIds(crule, prule), prule));
  }

  /** The constraints one query is about: both rules' together. */
  function Constraints(crule: Rule, prule: Rule): seq<ArgConstraint> {
    ArgsOf(crule) + ArgsOf(prule)
  }

  lemma ConstraintsCover(crule: Rule, prule: Rule)
    requires Analyzable(crule) && Analyzable(prule)
    ensures |Constraints(crule, prule)| < MANY
    ensures Indexes(Constraints(crule, prule)) == Indexes(ArgsOf(crule)) + Indexes(ArgsOf(prule))
    ensures forall k :: 0 <= k < |ArgsOf(crule)| ==> ArgsOf(crule)[k] in Constraints(crule, prule)
    ensures forall k :: 0 <= k < |ArgsOf(prule)| ==> ArgsOf(prule)[k] in Constraints(crule, prule)
  {
    var a, b := ArgsOf(crule), ArgsOf(prule);
    assert forall c :: c in a + b <==> c in a || c in b;
  }

  /** `Unsat`, for accounts that neither rule names. */
  lemma UnsatNarrowsForeign(solver: Solver, crule: Rule, prule: Rule, inp: EvalInputs)
    requires SoundSolver(solver) && solver(NarrowQuery(crule, prule)).Unsat?
    requires Analyzable(crule) && Analyzable(prule)
    requires Foreign(inp.selfAddr, crule) && Foreign(inp.selfAddr, prule)
    requires ProgramAllows(crule, inp)
    ensures ProgramAllows(prule, inp)
  {
    hide ProgramAllows, Mirrors, WellSorted, RuleTerm, Holds, NarrowQuery, Satisfies, Foreign, Interned, InternArgs,
      ModelOf;
    hide Constraints, Indexes;
    var ids, cs := BothIds(crule, prule), Constraints(crule, prule);
    BothIdsKnow(crule, prule);
    ConstraintsCover(crule, prule);
    ModelMirrors(inp, ids, cs, crule);
    ModelMirrors(inp, ids, cs, prule);
    var m := ModelOf(inp, ids, cs);
    TermMeaning(m, inp, ids, crule);
    TermMeaning(m, inp, ids, prule);
    QuerySatisfied(m, crule, prule);
  }

  lemma AllowsMeaning(rule: Rule, inp: EvalInputs)
    requires Analyzable(rule)
    ensures ProgramAllows(rule, inp) <==> RuleAllows(inp, rule)
  {
    hide OpsVerdict, RuleAllows;
    ProgramMeaning(inp, rule);
  }

  /** `Unsat` on a pair of rules: whatever invocation of whatever account the child's
      program allows, the parent's allows. Strings that are not text and accounts that the
      rules name by a literal are no exception. */
  lemma UnsatNarrows(solver: Solver, crule: Rule, prule: Rule, inp: EvalInputs)
    requires SoundSolver(solver) && solver(NarrowQuery(crule, prule)).Unsat?
    requires Analyzable(crule) && Analyzable(prule) && Unmixed(crule)
    requires ProgramAllows(crule, inp)
    ensures ProgramAllows(prule, inp)
  {
    hide ProgramAllows, RuleAllows, NarrowQuery, SoundSolver, Foreign, Unnamed, Unmixed, Relocated;
    var s := NewAddress(inp, crule, prule);
    var moved := Relocated(inp, s, crule, prule);
    assert moved.selfAddr == s by { RelocatedSelf(inp, s, crule, prule); }
    AllowsMeaning(crule, inp);
    ChildMoves(inp, s, crule, prule);
    AllowsMeaning(crule, moved);
    UnnamedForeign(s, inp, crule, prule);
    UnsatNarrowsForeign(solver, crule, prule, moved);
    AllowsMeaning(prule, moved);
    ParentReturns(inp, s, crule, prule);
    AllowsMeaning(prule, inp);
  }

  lemma RelocatedSelf(inp: EvalInputs, s: Address, crule: Rule, prule: Rule)
    ensures Relocated(inp, s, crule, prule).selfAddr == s
  {
  }

  /** Every invocation the child allows, the parent allows. */
  ghost predicate Narrower(crule: Rule, prule: Rule)
    requires Analyzable(crule) && Analyzable(prule)
  {
    forall inp: EvalInputs :: ProgramAllows(crule, inp) ==> ProgramAllows(prule, inp)
  }

  /** The child inspects no position that no call has, or is dead anyway. */
  predicate Placed(solver: Solver, rule: Rule) {
    U32_MAX !in Indexes(ArgsOf(rule)) || Dead(solver, rule)
  }

  /** The query of a dead child has no model, whatever the parent. */
  lemma DeadNarrows(solver: Solver, crule: Rule, prule: Rule)
    requires ExactSolver(solver) && Dead(solver, crule)
    ensures solver(NarrowQuery(crule, prule)).Unsat?
  {
    hide Satisfies, NarrowQuery, LiveQuery, RuleTerm, Holds, Interned, InternArgs, KnowsAll;
    BothIdsKnow(crule, prule);
    if !solver(NarrowQuery(crule, prule)).Unsat? {
      var m :| Satisfies(m, NarrowQuery(crule, prule));
      QuerySatisfied(m, crule, prule);
      LiveSatisfied(m, crule);
    }
  }

  /** With an exact solver the answer decides narrowing: `Unsat` if and only if every
      invocation of every account carries over. */
  lemma SolverDecidesNarrowing(solver: Solver, crule: Rule, prule: Rule)
    requires ExactSolver(solver) && Analyzable(crule) && Analyzable(prule) && Unmixed(crule) && Placed(solver, crule)
    ensures solver(NarrowQuery(crule, prule)).Unsat? <==> Narrower(crule, prule)
  {
    hide ProgramAllows, Satisfies, NarrowQuery, Unmixed, InvocationOf, Indexes, Dead;
    if Dead(solver, crule) { DeadNarrows(solver, crule, prule); }
    if solver(NarrowQuery(crule, prule)).Unsat? {
      forall inp: EvalInputs | ProgramAllows(crule, inp) ensures ProgramAllows(prule, inp) {
        UnsatNarrows(solver, crule, prule, inp);
      }
    } else {
      var m :| Satisfies(m, NarrowQuery(crule, prule));
      WidensAt(m, crule, prule);
    }
  }

  /** No call has an argument at the last 32-bit position. */
  lemma LastPositionDenies(rule: Rule, inp: EvalInputs)
    requires Analyzable(rule) && U32_MAX in Indexes(ArgsOf(rule))
    ensures !ProgramAllows(rule, inp)
  {
    hide ProgramAllows;
    AllowsMeaning(rule, inp);
    var c :| c in ArgsOf(rule) && c.index == U32_MAX;
    var k :| 0 <= k < |ArgsOf(rule)| && ArgsOf(rule)[k] == c;
    assert !ArgHolds(inp, ArgsOf(rule)[k]);
  }

  /** A model of the query is an invocation the child allows and the parent refuses. */
  lemma WidensAt(m: Model, crule: Rule, prule: Rule)
    requires Satisfies(m, NarrowQuery(crule, prule)) && Analyzable(crule) && Analyzable(prule)
    requires U32_MAX !in Indexes(ArgsOf(crule))
    ensures var inp := InvocationOf(m, BothIds(crule, prule));
            ProgramAllows(crule, inp) && !ProgramAllows(prule, inp)
  {
    hide ProgramAllows, Mirrors, WellSorted, RuleTerm, Holds, NarrowQuery, Satisfies, Interned, InternArgs,
      InvocationOf, KnowsAll;
    var ids := BothIds(crule, prule);
    var indexes := Indexes(ArgsOf(crule)) + Indexes(ArgsOf(prule));
    BothIdsKnow(crule, prule);
    QuerySatisfied(m, crule, prule);
    InvocationMirrors(m, ids, indexes, crule);
    TermMeaning(m, InvocationOf(m, ids), ids, crule);
    if U32_MAX in Indexes(ArgsOf(prule)) {
      LastPositionDenies(prule, InvocationOf(m, ids));
    } else {
      InvocationMirrors(m, ids, indexes, prule);
      TermMeaning(m, InvocationOf(m, ids), ids, prule);
    }
  }

  lemma {:induction false} NoFindingsPointwise(solver: Solver, parent: seq<Rule>, child: seq<Rule>, i: nat)
    requires Findings(solver, parent, child) == [] && i < |child|
    ensures RuleFindings(solver, parent, child[i]) == []
  {
    hide RuleFindings;
    if i < |child| - 1 { NoFindingsPointwise(solver, parent, child[..|child|-1], i); }
  }

  /** What an empty result says of one child rule. */
  lemma MatchedRule(solver: Solver, parent: seq<Rule>, child: seq<Rule>, i: nat) returns (j: nat)
    requires Findings(solver, parent, child) == [] && i < |child|
    ensures j < |parent| && parent[j].name == child[i].name && parent[j].scope == child[i].scope
    ensures solver(NarrowQuery(child[i], parent[j])).Unsat?
    ensures !ExpiryLonger(parent[j].notAfterLedger, child[i].notAfterLedger) && !CapLooser(parent[j].cap, child[i].cap)
  {
    hide NarrowQuery, ExpiryLonger, CapLooser;
    NoFindingsPointwise(solver, parent, child, i);
    FindRuleIsFirst(parent, child[i].name);
    j := FindRule(parent, child[i].name).value;
    assert MatchedFindings(solver, parent[j], child[i]) == [];
  }

  /** Trace-level soundness: with no findings, every child rule has a parent rule of the
      same name and scope, and every run the child rule admits (each call allowed by the
      program and unexpired, the non-negative spending within the rolling cap) the parent
      rule admits. */
  lemma NarrowsSound(solver: Solver, parent: PolicyDoc, child: PolicyDoc, i: nat) returns (j: nat)
    requires SoundSolver(solver) && Findings(solver, parent.rules, child.rules) == []
    requires i < |child.rules|
    requires forall k :: 0 <= k < |parent.rules| ==> Analyzable(parent.rules[k])
    requires forall k :: 0 <= k < |child.rules| ==> Analyzable(child.rules[k]) && Unmixed(child.rules[k])
    ensures j < |parent.rules|
    ensures parent.rules[j].name == child.rules[i].name && parent.rules[j].scope == child.rules[i].scope
    ensures forall run, edge :: Admits(child.rules[i], run, edge) ==> Admits(parent.rules[j], run, edge)
  {
    hide Admits, NarrowQuery, Unmixed, Findings;
    j := MatchedRule(solver, parent.rules, child.rules, i);
    var crule, prule := child.rules[i], parent.rules[j];
    forall run, edge | Admits(crule, run, edge) ensures Admits(prule, run, edge) {
      RunCarriesOver(solver, crule, prule, run, edge);
    }
  }

  ghost predicate DistinctNames(rules: seq<Rule>) {
    forall i, j :: 0 <= i < j < |rules| ==> rules[i].name != rules[j].name
  }

  /** No false alarms on an unchanged rule: the query of a rule against itself has no
      model, so an exact solver clears it. */
  lemma SelfQueryUnsat(solver: Solver, rule: Rule)
    requires ExactSolver(solver)
    ensures MatchedFindings(solver, rule, rule) == []
  {
    hide RuleTerm, WellSorted, KnowsAll, Interned, InternArgs, Holds, NarrowQuery, Satisfies, CapLimit;
    if !solver(NarrowQuery(rule, rule)).Unsat? {
      var m :| Satisfies(m, NarrowQuery(rule, rule));
      QuerySatisfied(m, rule, rule);
    }
  }

  /** Every document narrows itself. */
  lemma {:induction false} NarrowsReflexive(solver: Solver, rules: seq<Rule>, k: nat)
    requires ExactSolver(solver) && DistinctNames(rules) && k <= |rules|
    ensures Findings(solver, rules, rules[..k]) == []
  {
    hide MatchedFindings, ExactSolver;
    if k > 0 {
      var rule := rules[k - 1];
      NarrowsReflexive(solver, rules, k - 1);
      FindRuleIsFirst(rules, rule.name);
      SelfQueryUnsat(solver, rule);
      assert rules[..k][..k-1] == rules[..k-1];
      assert FindRule(rules, rule.name) == Some(k - 1);
    }
  }

  lemma RunCarriesOver(solver: Solver, crule: Rule, prule: Rule, run: seq<Event>, edge: int)
    requires SoundSolver(solver) && solver(NarrowQuery(crule, prule)).Unsat?
    requires Analyzable(crule) && Analyzable(prule) && Unmixed(crule)
    requires !ExpiryLonger(prule.notAfterLedger, crule.notAfterLedger) && !CapLooser(prule.cap, crule.cap)
    requires Admits(crule, run, edge)
    ensures Admits(prule, run, edge)
  {
    hide ProgramAllows, NarrowQuery, Analyzable, RespectsCap, SoundSolver, CapLimit, Unmixed;
    forall k | 0 <= k < |run| ensures ProgramAllows(prule, run[k].inp) && Unexpired(prule, run[k].inp.ledger) {
      UnsatNarrows(solver, crule, prule, run[k].inp);
    }
    if prule.cap.Some? { TighterCap(run, prule.cap.value, crule.cap.value, edge); }
  }

  // ----- the two conditions are needed -----

  /** A rule that requires one position to be both the account and a literal is, to the
      encoder, unsatisfiable. */
  lemma MixedHasNoModel(m: Model, crule: Rule, prule: Rule)
    requires !Unmixed(crule)
    ensures !Satisfies(m, NarrowQuery(crule, prule))
  {
    hide Satisfies, NarrowQuery, WellSorted, InternArgs, Interned;
    var ids, args := BothIds(crule, prule), ArgsOf(crule);
    BothIdsKnow(crule, prule);
    QuerySatisfied(m, crule, prule);
    if Holds(m, RuleTerm(ids, crule)) {
      var j, k :| 0 <= j < |args| && 0 <= k < |args| && args[j].index == args[k].index
                  && args[j].pred.IsSelf? && args[k].pred.AddressEq?;
      TermNeedsPred(m, ids, crule, j);
      TermNeedsPred(m, ids, crule, k);
      BodyNeeds(m, ids, args[j]);
      BodyNeeds(m, ids, args[k]);
      assert Knows(ids, args[k].pred);
    }
  }

  /** A rule that allows nothing. */
  function NoFunctions(rule: Rule): Rule {
    rule.(functions := Some([]), args := None)
  }

  lemma NoFunctionsDenies(rule: Rule, inp: EvalInputs)
    requires Analyzable(rule)
    ensures Analyzable(NoFunctions(rule)) && !ProgramAllows(NoFunctions(rule), inp)
  {
    hide ProgramAllows;
    AllowsMeaning(NoFunctions(rule), inp);
  }

  /** For a child that allows anything at all, `Unsat` means narrowing against every parent
      exactly when no position is required to be both the account and a literal. */
  lemma UnmixedExactly(solver: Solver, crule: Rule, inp: EvalInputs)
    requires ExactSolver(solver) && Analyzable(crule) && ProgramAllows(crule, inp)
    ensures Unmixed(crule) <==>
            forall prule :: Analyzable(prule) && solver(NarrowQuery(crule, prule)).Unsat? ==> Narrower(crule, prule)
  {
    hide ProgramAllows, NarrowQuery, Satisfies, Unmixed, Analyzable;
    if Unmixed(crule) {
      forall prule | Analyzable(prule) && solver(NarrowQuery(crule, prule)).Unsat? ensures Narrower(crule, prule) {
        forall i: EvalInputs | ProgramAllows(crule, i) ensures ProgramAllows(prule, i) {
          UnsatNarrows(solver, crule, prule, i);
        }
      }
    } else {
      var prule := NoFunctions(crule);
      NoFunctionsDenies(crule, inp);
      if !solver(NarrowQuery(crule, prule)).Unsat? {
        var m :| Satisfies(m, NarrowQuery(crule, prule));
        MixedHasNoModel(m, crule, prule);
      }
      assert !Narrower(crule, prule);
    }
  }

  /** A model of the child alone widens a parent that allows nothing. */
  lemma LiveWidens(m: Model, crule: Rule)
    requires Satisfies(m, LiveQuery(crule))
    ensures Satisfies(m, NarrowQuery(crule, NoFunctions(crule)))
  {
    hide Satisfies, NarrowQuery, LiveQuery, RuleTerm, Holds, Interned, InternArgs, WellSorted;
    var prule := NoFunctions(crule);
    BothIdsKnow(crule, prule);
    LiveSatisfied(m, crule);
    QuerySatisfied(m, crule, prule);
    assert Indexes(ArgsOf(crule)) + Indexes(ArgsOf(prule)) == Indexes(ArgsOf(crule)) by { NoIndexes(crule); }
    if Holds(m, RuleTerm(BothIds(crule, prule), prule)) { TermNeedsFunction(m, BothIds(crule, prule), prule); }
  }

  lemma NoIndexes(rule: Rule)
    ensures Indexes(ArgsOf(NoFunctions(rule))) == {}
  {
  }

  /** An exact solver decides narrowing against every parent exactly for the children that
      inspect no position past the last argument a call can have, or that it proves dead.
      Any other child allows nothing and is still reported as a widening. */
  lemma PlacedExactly(solver: Solver, crule: Rule)
    requires ExactSolver(solver) && Analyzable(crule) && Unmixed(crule)
    ensures Placed(solver, crule) <==>
            forall prule :: Analyzable(prule) ==> (solver(NarrowQuery(crule, prule)).Unsat? <==> Narrower(crule, prule))
  {
    hide ProgramAllows, NarrowQuery, Satisfies, Unmixed, LiveQuery, Indexes, Analyzable;
    if Placed(solver, crule) {
      forall prule | Analyzable(prule)
        ensures solver(NarrowQuery(crule, prule)).Unsat? <==> Narrower(crule, prule)
      {
        SolverDecidesNarrowing(solver, crule, prule);
      }
    } else {
      var prule := NoFunctions(crule);
      NoFunctionsAnalyzable(crule);
      var m :| Satisfies(m, LiveQuery(crule));
      LiveWidens(m, crule);
      forall inp: EvalInputs ensures !ProgramAllows(crule, inp) { LastPositionDenies(crule, inp); }
      assert Narrower(crule, prule);
    }
  }

  lemma NoFunctionsAnalyzable(rule: Rule)
    requires Analyzable(rule)
    ensures Analyzable(NoFunctions(rule))
  {
  }

  function LastPositionRule(base: Rule, n: u32): Rule {
    base.(functions := None, args := Some([ArgConstraint(U32_MAX, U32Eq(n))]))
  }

  function PhantomModel(base: Rule): Model {
    Model(true, "", EncodedFloor(base.principals), U32_MAX + 1, map[U32_MAX := ArgVars(T_U32, 0, 0, "")])
  }

  lemma LastPositionShape(base: Rule, n: u32, ids: AddressIds)
    ensures KnowsAll(ids, ArgsOf(LastPositionRule(base, n)))
    ensures RuleTerm(ids, LastPositionRule(base, n)) ==
            And([SignersAtLeast(EncodedFloor(base.principals)), CtxContract, PredTerm(ids, U32_MAX, U32Eq(n))])
  {
    hide PredTerm, EncodedFloor;
    var args := ArgsOf(LastPositionRule(base, n));
    assert args[..0] == [] && args[0] == ArgConstraint(U32_MAX, U32Eq(n));
    ArgConjunctsAppend(ids, [], args[0]);
    assert [] + args == args && ArgConjuncts(ids, []) == [];
  }

  lemma LastPositionTerm(base: Rule, n: u32, ids: AddressIds)
    ensures KnowsAll(ids, ArgsOf(LastPositionRule(base, n)))
    ensures Holds(PhantomModel(base), RuleTerm(ids, LastPositionRule(base, n))) <==> n == 0
  {
    hide PredBody, RuleTerm, LastPositionRule, KnowsAll;
    var m := PhantomModel(base);
    var floor, pred := SignersAtLeast(EncodedFloor(base.principals)), PredTerm(ids, U32_MAX, U32Eq(n));
    LastPositionShape(base, n, ids);
    AndOfThree(m, floor, CtxContract, pred);
    AndOfTwo(m, ArgPresent(U32_MAX), PredBody(ids, U32_MAX, U32Eq(n)));
    U32Body(ids, n);
    AndOfTwo(m, ArgTypeIs(U32_MAX, T_U32), ArgU32Is(U32_MAX, n));
  }

  lemma U32Body(ids: AddressIds, n: u32)
    ensures PredBody(ids, U32_MAX, U32Eq(n)) == And([ArgTypeIs(U32_MAX, T_U32), ArgU32Is(U32_MAX, n)])
  {
  }

  /** A child that inspects the last 32-bit position allows nothing, so it narrows every
      parent; its query can have a model all the same, and an exact solver then reports a
      widening that no invocation witnesses. */
  lemma PhantomWidening(solver: Solver, base: Rule, inp: EvalInputs)
    requires ExactSolver(solver) && Countable(base) && !base.principals.SelfAuthenticating?
    ensures var crule, prule := LastPositionRule(base, 0), LastPositionRule(base, 1);
            && Analyzable(crule) && Analyzable(prule) && Unmixed(crule)
            && !ProgramAllows(crule, inp)
            && !solver(NarrowQuery(crule, prule)).Unsat?
  {
    hide ProgramAllows, NarrowQuery, Satisfies, RuleTerm, Holds, InternArgs, Interned;
    var crule, prule := LastPositionRule(base, 0), LastPositionRule(base, 1);
    assert ArgsOf(crule)[0] in ArgsOf(crule);
    LastPositionDenies(crule, inp);
    var ids, m := BothIds(crule, prule), PhantomModel(base);
    LastPositionTerm(base, 0, ids);
    LastPositionTerm(base, 1, ids);
    QuerySatisfied(m, crule, prule);
    assert WellSorted(m, Indexes(ArgsOf(crule)) + Indexes(ArgsOf(prule)));
  }
}
