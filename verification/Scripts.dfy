/** Scripts for the solver, and liveness of a single rule
    (crates/perch-analyze/src/lib.rs). The solver is a parameter. */
module Scripts {
  import opened Base
  import opened Text
  import opened Program
  import opened Doc
  import opened Compile
  import opened Encoder
  import opened Agreement

  // ----- scripts and solvers -----

  datatype SolverVerdict = Sat(values: string) | Unsat | Undetermined(output: string)

  /** Declarations for the argument positions, then the asserted terms. */
  datatype Script = Script(indexes: set<u32>, asserts: seq<Term>)

  type Solver = Script -> SolverVerdict

  ghost predicate Satisfies(m: Model, s: Script) {
    WellSorted(m, s.indexes) && AllHold(m, s.asserts)
  }

  /** `Unsat` is never wrong. */
  ghost predicate SoundSolver(solver: Solver) {
    forall m, s :: Satisfies(m, s) ==> !solver(s).Unsat?
  }

  /** Sound, and every other answer has a model. */
  ghost predicate ExactSolver(solver: Solver) {
    SoundSolver(solver) && forall s :: !solver(s).Unsat? ==> exists m :: Satisfies(m, s)
  }

  // ----- liveness -----

  /** The interning table after the rule's term. */
  function RuleIds(rule: Rule): AddressIds { InternArgs(map[], ArgsOf(rule)) }

  lemma RuleIdsKnow(rule: Rule)
    ensures Interned(RuleIds(rule)) && KnowsAll(RuleIds(rule), ArgsOf(rule))
  {
    InternArgsGrows(map[], ArgsOf(rule));
  }

  /** Can the rule allow anything? */
  function LiveQuery(rule: Rule): Script {
    RuleIdsKnow(rule);
    Script(Indexes(ArgsOf(rule)), [RuleTerm(RuleIds(rule), rule)])
  }

  datatype RuleLiveness = RuleLiveness(rule: string, verdict: SolverVerdict)

  /** The solver proves the rule dead. */
  predicate Dead(solver: Solver, rule: Rule) {
    solver(LiveQuery(rule)).Unsat?
  }

  ghost predicate HasModel(rule: Rule) {
    exists m :: Satisfies(m, LiveQuery(rule))
  }

  lemma LiveSatisfied(m: Model, rule: Rule)
    ensures KnowsAll(RuleIds(rule), ArgsOf(rule))
    ensures Satisfies(m, LiveQuery(rule)) <==>
            WellSorted(m, Indexes(ArgsOf(rule))) && Holds(m, RuleTerm(RuleIds(rule), rule))
  {
    hide RuleTerm, WellSorted, KnowsAll, Interned, InternArgs;
    RuleIdsKnow(rule);
    assert LiveQuery(rule).asserts[0] == RuleTerm(RuleIds(rule), rule);
  }

  lemma DeadIff(solver: Solver, rule: Rule)
    requires ExactSolver(solver)
    ensures Dead(solver, rule) <==> !HasModel(rule)
  {
    hide LiveQuery, Satisfies;
  }

  /** The verdict of each rule's query, in order. */
  method DeadRules(solver: Solver, doc: PolicyDoc) returns (out: seq<RuleLiveness>)
    ensures |out| == |doc.rules|
    ensures forall i :: 0 <= i < |out| ==> out[i] == RuleLiveness(doc.rules[i].name, solver(LiveQuery(doc.rules[i])))
  {
    hide LiveQuery;
    out := [];
    for k := 0 to |doc.rules|
      invariant |out| == k
      invariant forall i :: 0 <= i < k ==> out[i] == RuleLiveness(doc.rules[i].name, solver(LiveQuery(doc.rules[i])))
    {
      var script := EncodeLive(doc.rules[k]);
      out := out + [RuleLiveness(doc.rules[k].name, solver(script))];
    }
  }

  method EncodeLive(rule: Rule) returns (script: Script)
    ensures script == LiveQuery(rule)
  {
    hide RuleTerm, InternArgs, Indexes, Interned, Extends, KnowsAll;
    var enc := new SymbolicEncoder();
    var allow := enc.RuleAllows(rule);
    script := Script(enc.argIndexes, [allow]);
    assert enc.argIndexes == Indexes(ArgsOf(rule));
  }

  // ----- what a rule's term does not look at -----

  /** The two models give the position the same variables. */
  ghost predicate SameAt(m: Model, n: Model, i: u32) {
    m.argCount == n.argCount && i in m.args && i in n.args && m.args[i] == n.args[i]
  }

  /** What a predicate asks of the variables at its position. */
  ghost predicate VarsHold(v: ArgVars, ids: AddressIds, pred: ArgPred)
    requires Knows(ids, pred)
  {
    match pred
    case IsSelf => v.tag == T_ADDR && v.addr == 0
    case AddressEq(a) => v.tag == T_ADDR && v.addr == ids[a]
    case U32Eq(n) => v.tag == T_U32 && v.u32 == n
    case StringIn(values) => v.tag == T_STR && ListsText(values, v.text)
    case StringPrefix(p) => |Utf8(p)| <= MAX_STR_ARG_LEN && v.tag == T_STR && p <= v.text
  }

  lemma PredHoldsAt(m: Model, ids: AddressIds, i: u32, pred: ArgPred)
    requires Knows(ids, pred) && i in m.args
    ensures Holds(m, PredTerm(ids, i, pred)) <==> i < m.argCount && VarsHold(m.args[i], ids, pred)
  {
    hide TextAlternatives, Disj, ListsText, Utf8;
    AndOfTwo(m, ArgPresent(i), PredBody(ids, i, pred));
    match pred
    case IsSelf => AndOfTwo(m, ArgTypeIs(i, T_ADDR), ArgAddrIs(i, 0));
    case AddressEq(a) => AndOfTwo(m, ArgTypeIs(i, T_ADDR), ArgAddrIs(i, ids[a]));
    case U32Eq(k) => AndOfTwo(m, ArgTypeIs(i, T_U32), ArgU32Is(i, k));
    case StringIn(values) => StringInHolds(m, i, values, ids);
    case StringPrefix(p) => AndOfTwo(m, ArgTypeIs(i, T_STR), ArgStrStartsWith(i, p));
  }

  lemma PredSeesPosition(m: Model, n: Model, ids: AddressIds, i: u32, pred: ArgPred)
    requires Knows(ids, pred) && SameAt(m, n, i)
    ensures Holds(m, PredTerm(ids, i, pred)) <==> Holds(n, PredTerm(ids, i, pred))
  {
    hide PredTerm, VarsHold, Holds;
    PredHoldsAt(m, ids, i, pred);
    PredHoldsAt(n, ids, i, pred);
  }

  lemma {:induction false} ArgsSeePositions(m: Model, n: Model, ids: AddressIds, args: seq<ArgConstraint>)
    requires KnowsAll(ids, args) && (m.ctxContract ==> n.ctxContract)
    requires forall k :: 0 <= k < |args| ==> SameAt(m, n, args[k].index)
    requires AllHold(m, ArgConjuncts(ids, args))
    ensures AllHold(n, ArgConjuncts(ids, args))
  {
    hide PredTerm, SameAt, Knows;
    if args != [] {
      var init, c := args[..|args|-1], args[|args|-1];
      forall k | 0 <= k < |init| ensures Knows(ids, init[k].pred) && SameAt(m, n, init[k].index) {
        assert init[k] == args[k];
      }
      assert Knows(ids, c.pred);
      var pair := [CtxContract, PredTerm(ids, c.index, c.pred)];
      AllHoldConcat(m, ArgConjuncts(ids, init), pair);
      AllHoldConcat(n, ArgConjuncts(ids, init), pair);
      ArgsSeePositions(m, n, ids, init);
      PredSeesPosition(m, n, ids, c.index, c.pred);
      assert Holds(m, pair[0]) && Holds(m, pair[1]);
    }
  }

  const NO_VARS := ArgVars(T_ADDR, 0, 0, "")

  /** The same symbolic invocation as a call of `f`, with variables for more positions. */
  function Calling(m: Model, f: string, more: set<u32>): Model {
    m.(ctxContract := true, fnName := f,
       args := map i | i in m.args.Keys + more :: if i in m.args then m.args[i] else NO_VARS)
  }

  lemma CallingSorted(m: Model, f: string, indexes: set<u32>, more: set<u32>)
    requires WellSorted(m, indexes)
    ensures WellSorted(Calling(m, f, more), indexes + more)
  {
  }

  lemma FnConjunctsNeed(m: Model, fns: seq<string>)
    ensures AllHold(m, FnConjuncts(Some(fns))) <==> m.ctxContract && m.fnName in fns
  {
    var alts := FnAlternatives(fns);
    var parts := FnConjuncts(Some(fns));
    assert parts[0] == CtxContract && parts[1] == Disj(alts);
    DisjHolds(m, alts);
    forall k | 0 <= k < |fns| ensures Holds(m, alts[k]) <==> m.fnName == fns[k] {
    }
    if m.fnName in fns {
      var k :| 0 <= k < |fns| && fns[k] == m.fnName;
      assert Holds(m, alts[k]);
    }
  }

  lemma RuleTermParts(m: Model, ids: AddressIds, rule: Rule)
    requires KnowsAll(ids, ArgsOf(rule))
    ensures Holds(m, RuleTerm(ids, rule)) <==>
            && m.signerCount >= EncodedFloor(rule.principals)
            && AllHold(m, FnConjuncts(rule.functions)) && AllHold(m, ArgConjuncts(ids, ArgsOf(rule)))
  {
    hide ArgConjuncts, FnConjuncts, EncodedFloor, KnowsAll;
    var floor := [SignersAtLeast(EncodedFloor(rule.principals))];
    var fns, args := FnConjuncts(rule.functions), ArgConjuncts(ids, ArgsOf(rule));
    ConjHolds(m, floor + fns + args);
    AllHoldConcat(m, floor + fns, args);
    AllHoldConcat(m, floor, fns);
    assert AllHold(m, floor) <==> Holds(m, floor[0]);
  }

  /** What a rule can call: the functions it lists, or any. */
  predicate MayCall(rule: Rule, f: string) {
    rule.functions.Some? ==> f in rule.functions.value
  }

  /** A live rule stays live as a call of any function it does not exclude, whatever other
      positions the script declares. */
  lemma LiveCalling(m: Model, ids: AddressIds, rule: Rule, f: string, more: set<u32>)
    requires KnowsAll(ids, ArgsOf(rule)) && WellSorted(m, Indexes(ArgsOf(rule))) && Holds(m, RuleTerm(ids, rule))
    requires MayCall(rule, f)
    ensures Holds(Calling(m, f, more), RuleTerm(ids, rule))
  {
    hide RuleTerm, ArgConjuncts, FnConjuncts, Holds, KnowsAll, EncodedFloor;
    var n := Calling(m, f, more);
    RuleTermParts(m, ids, rule);
    RuleTermParts(n, ids, rule);
    if rule.functions.Some? { FnConjunctsNeed(n, rule.functions.value); } else { NoFnConjuncts(n); }
    forall k | 0 <= k < |ArgsOf(rule)| ensures SameAt(m, n, ArgsOf(rule)[k].index) {
      assert ArgsOf(rule)[k] in ArgsOf(rule);
    }
    ArgsSeePositions(m, n, ids, ArgsOf(rule));
  }

  lemma NoFnConjuncts(m: Model)
    ensures AllHold(m, FnConjuncts(None))
  {
  }

  /** A rule's term holds only of calls of the functions it lists. */
  lemma TermNeedsFunction(m: Model, ids: AddressIds, rule: Rule)
    requires KnowsAll(ids, ArgsOf(rule)) && Holds(m, RuleTerm(ids, rule)) && rule.functions.Some?
    ensures m.fnName in rule.functions.value
  {
    hide RuleTerm, ArgConjuncts, FnConjuncts, Holds, KnowsAll;
    RuleTermParts(m, ids, rule);
    FnConjunctsNeed(m, rule.functions.value);
  }
}
