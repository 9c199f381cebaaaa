/** Liveness and intent conformance over the encoder (crates/perch-analyze/src/lib.rs):
    whether a rule allows anything, and which functions a document can call on a contract. */
module Conformance {
  import opened Base
  import opened Program
  import opened Doc
  import opened Compile
  import opened Lowering
  import opened Encoder
  import opened Agreement
  import opened Relocation
  import opened Scripts
  import opened Narrows

  // ----- liveness -----

  /** What a program allows, for whatever account, gives its rule a model. */
  lemma AllowedHasModel(rule: Rule, inp: EvalInputs)
    requires Analyzable(rule) && Unmixed(rule) && ProgramAllows(rule, inp)
    ensures HasModel(rule)
  {
    hide ProgramAllows, RuleAllows, Foreign, Unnamed, Unmixed, LiveQuery, WellSorted, RuleTerm, Holds, Interned,
      InternArgs, Mirrors, ModelOf, Satisfies, Indexes;
    var s, ids, cs := NewAddress(inp, rule, rule), RuleIds(rule), ArgsOf(rule);
    var moved := Relocated(inp, s, rule, rule);
    RelocatedSelf(inp, s, rule, rule);
    AllowsMeaning(rule, inp);
    ChildMoves(inp, s, rule, rule);
    AllowsMeaning(rule, moved);
    UnnamedForeign(s, inp, rule, rule);
    RuleIdsKnow(rule);
    ModelMirrors(moved, ids, cs, rule);
    TermMeaning(ModelOf(moved, ids, cs), moved, ids, rule);
    LiveSatisfied(ModelOf(moved, ids, cs), rule);
  }

  /** A model of the rule is an invocation its program allows. */
  lemma ModelAllowed(m: Model, rule: Rule)
    requires Satisfies(m, LiveQuery(rule)) && Analyzable(rule) && U32_MAX !in Indexes(ArgsOf(rule))
    ensures ProgramAllows(rule, InvocationOf(m, RuleIds(rule)))
  {
    hide ProgramAllows, Mirrors, WellSorted, RuleTerm, Holds, Satisfies, Interned, InternArgs, KnowsAll, LiveQuery,
      Indexes, InvocationOf;
    var ids := RuleIds(rule);
    RuleIdsKnow(rule);
    LiveSatisfied(m, rule);
    InvocationMirrors(m, ids, Indexes(ArgsOf(rule)), rule);
    TermMeaning(m, InvocationOf(m, ids), ids, rule);
  }

  /** A rule proved dead never allows. */
  lemma DeadSound(solver: Solver, rule: Rule, inp: EvalInputs)
    requires SoundSolver(solver) && Dead(solver, rule) && Analyzable(rule) && Unmixed(rule)
    ensures !ProgramAllows(rule, inp)
  {
    hide ProgramAllows, LiveQuery, Satisfies, Unmixed, Analyzable;
    if ProgramAllows(rule, inp) { AllowedHasModel(rule, inp); }
  }

  ghost predicate AllowsNothing(rule: Rule)
    requires Analyzable(rule)
  {
    forall inp: EvalInputs :: !ProgramAllows(rule, inp)
  }

  /** An exact solver's verdict is the rule's liveness exactly for the rules that inspect no
      position past the last argument a call can have, or that it proves dead. */
  lemma DeadDecides(solver: Solver, rule: Rule)
    requires ExactSolver(solver) && Analyzable(rule) && Unmixed(rule)
    ensures (Dead(solver, rule) <==> AllowsNothing(rule)) <==> Placed(solver, rule)
  {
    hide ProgramAllows, LiveQuery, Satisfies, Unmixed, Analyzable, Indexes, InvocationOf;
    if Dead(solver, rule) {
      forall inp: EvalInputs ensures !ProgramAllows(rule, inp) { DeadSound(solver, rule, inp); }
    } else if U32_MAX in Indexes(ArgsOf(rule)) {
      forall inp: EvalInputs ensures !ProgramAllows(rule, inp) { LastPositionDenies(rule, inp); }
    } else {
      var m :| Satisfies(m, LiveQuery(rule));
      ModelAllowed(m, rule);
    }
  }

  // ----- intent conformance -----

  datatype OnlyCallsViolation = OnlyCallsViolation(rule: string, verdict: SolverVerdict)

  function Outside(allowed: seq<string>): (r: seq<Term>)
    ensures |r| == |allowed|
  {
    seq(|allowed|, k requires 0 <= k < |allowed| => Negated(FnNameIs(allowed[k])))
  }

  function OnlyCallsQuery(rule: Rule, allowed: seq<string>): Script {
    InternArgsGrows(map[], ArgsOf(rule));
    Script(Indexes(ArgsOf(rule)), [RuleTerm(RuleIds(rule), rule), CtxContract, Conj(Outside(allowed))])
  }

  /** The rules on the contract that the solver does not clear, in order. */
  function Violations(solver: Solver, rules: seq<Rule>, contract: string,
                      allowed: seq<string>): seq<OnlyCallsViolation> {
    if rules == [] then []
    else
      var init := Violations(solver, rules[..|rules|-1], contract, allowed);
      var rule := rules[|rules|-1];
      var v := solver(OnlyCallsQuery(rule, allowed));
      if rule.scope == ContractScope(contract) && !v.Unsat? then init + [OnlyCallsViolation(rule.name, v)] else init
  }

  method EncodeOnlyCalls(rule: Rule, allowed: seq<string>) returns (script: Script)
    ensures script == OnlyCallsQuery(rule, allowed)
  {
    hide RuleTerm, InternArgs, Indexes, Interned, Extends, KnowsAll;
    var enc := new SymbolicEncoder();
    var allow := enc.RuleAllows(rule);
    script := Script(enc.argIndexes, [allow, CtxContract, Conj(Outside(allowed))]);
    assert enc.argIndexes == Indexes(ArgsOf(rule));
  }

  method OnlyCalls(solver: Solver, doc: PolicyDoc, contract: string, allowed: seq<string>)
    returns (violations: seq<OnlyCallsViolation>)
    ensures violations == Violations(solver, doc.rules, contract, allowed)
  {
    hide OnlyCallsQuery;
    violations := [];
    for k := 0 to |doc.rules|
      invariant violations == Violations(solver, doc.rules[..k], contract, allowed)
    {
      assert doc.rules[..k+1][..k] == doc.rules[..k];
      var rule := doc.rules[k];
      if rule.scope == ContractScope(contract) {
        var script := EncodeOnlyCalls(rule, allowed);
        var v := solver(script);
        if !v.Unsat? { violations := violations + [OnlyCallsViolation(rule.name, v)]; }
      }
    }
    assert doc.rules[..|doc.rules|] == doc.rules;
  }

  lemma {:induction false} NoViolationsPointwise(solver: Solver, rules: seq<Rule>, contract: string,
                                                 allowed: seq<string>, i: nat)
    requires Violations(solver, rules, contract, allowed) == []
    requires i < |rules| && rules[i].scope == ContractScope(contract)
    ensures solver(OnlyCallsQuery(rules[i], allowed)).Unsat?
  {
    hide OnlyCallsQuery;
    if i < |rules| - 1 { NoViolationsPointwise(solver, rules[..|rules|-1], contract, allowed, i); }
  }

  lemma OutsideHolds(m: Model, allowed: seq<string>)
    ensures Holds(m, Conj(Outside(allowed))) <==> m.fnName !in allowed
  {
    ConjHolds(m, Outside(allowed));
    forall k | 0 <= k < |allowed| ensures Holds(m, Outside(allowed)[k]) <==> m.fnName != allowed[k] {
    }
  }

  /** `Unsat`, for an account the rule does not name. */
  lemma OnlyCallsForeign(solver: Solver, rule: Rule, allowed: seq<string>, inp: EvalInputs)
    requires SoundSolver(solver) && solver(OnlyCallsQuery(rule, allowed)).Unsat?
    requires Analyzable(rule) && Foreign(inp.selfAddr, rule)
    requires inp.context.ContractCall? && ProgramAllows(rule, inp)
    ensures inp.context.fnName in allowed
  {
    hide ProgramAllows, WellSorted, RuleTerm, Foreign, Interned, InternArgs, Conj, Outside, Indexes, Mirrors;
    InternArgsGrows(map[], ArgsOf(rule));
    var ids, cs := RuleIds(rule), ArgsOf(rule);
    ModelMirrors(inp, ids, cs, rule);
    var m := ModelOf(inp, ids, cs);
    TermMeaning(m, inp, ids, rule);
    OutsideHolds(m, allowed);
    var ts := OnlyCallsQuery(rule, allowed).asserts;
    assert ts[0] == RuleTerm(ids, rule) && ts[1] == CtxContract && ts[2] == Conj(Outside(allowed));
    assert Satisfies(m, OnlyCallsQuery(rule, allowed)) <==> m.fnName !in allowed;
  }

  /** `Unsat` on one rule: whatever the account, its program allows only listed calls. */
  lemma OnlyCallsUnsat(solver: Solver, rule: Rule, allowed: seq<string>, inp: EvalInputs)
    requires SoundSolver(solver) && solver(OnlyCallsQuery(rule, allowed)).Unsat?
    requires Analyzable(rule) && Unmixed(rule)
    requires inp.context.ContractCall? && ProgramAllows(rule, inp)
    ensures inp.context.fnName in allowed
  {
    hide ProgramAllows, RuleAllows, OnlyCallsQuery, SoundSolver, Foreign, Unnamed, Unmixed;
    var s := NewAddress(inp, rule, rule);
    var moved := Relocated(inp, s, rule, rule);
    AllowsMeaning(rule, inp);
    ChildMoves(inp, s, rule, rule);
    AllowsMeaning(rule, moved);
    UnnamedForeign(s, inp, rule, rule);
    OnlyCallsForeign(solver, rule, allowed, moved);
  }

  /** No violations: on that contract the document only ever calls the allowed functions,
      whatever the account. */
  lemma OnlyCallsSound(solver: Solver, doc: PolicyDoc, contract: string, allowed: seq<string>, i: nat, inp: EvalInputs)
    requires SoundSolver(solver) && Violations(solver, doc.rules, contract, allowed) == []
    requires i < |doc.rules| && doc.rules[i].scope == ContractScope(contract)
    requires Analyzable(doc.rules[i]) && Unmixed(doc.rules[i])
    requires inp.context.ContractCall? && ProgramAllows(doc.rules[i], inp)
    ensures inp.context.fnName in allowed
  {
    hide ProgramAllows, OnlyCallsQuery, SoundSolver, Unmixed, Violations;
    NoViolationsPointwise(solver, doc.rules, contract, allowed, i);
    OnlyCallsUnsat(solver, doc.rules[i], allowed, inp);
  }

  // ----- exactness -----

  lemma OnlyCallsSatisfied(m: Model, rule: Rule, allowed: seq<string>)
    ensures Satisfies(m, OnlyCallsQuery(rule, allowed)) <==>
            Satisfies(m, LiveQuery(rule)) && m.ctxContract && m.fnName !in allowed
  {
    hide RuleTerm, WellSorted, KnowsAll, Interned, InternArgs, Outside, Conj, LiveQuery, Indexes;
    LiveSatisfied(m, rule);
    OutsideHolds(m, allowed);
    var ts := OnlyCallsQuery(rule, allowed).asserts;
    assert ts[0] == RuleTerm(RuleIds(rule), rule) && ts[1] == CtxContract && ts[2] == Conj(Outside(allowed));
  }

  /** The model of a live rule, as a call of a function outside the list. */
  lemma LiveViolates(m: Model, rule: Rule, allowed: seq<string>, f: string)
    requires Satisfies(m, LiveQuery(rule)) && MayCall(rule, f) && f !in allowed
    ensures Satisfies(Calling(m, f, {}), OnlyCallsQuery(rule, allowed))
  {
    hide RuleTerm, WellSorted, Interned, InternArgs, LiveQuery, OnlyCallsQuery, Satisfies, Indexes, Holds;
    var n := Calling(m, f, {});
    RuleIdsKnow(rule);
    LiveSatisfied(m, rule);
    LiveCalling(m, RuleIds(rule), rule, f, {});
    CallingSorted(m, f, Indexes(ArgsOf(rule)), {});
    assert Indexes(ArgsOf(rule)) + {} == Indexes(ArgsOf(rule));
    LiveSatisfied(n, rule);
    OnlyCallsSatisfied(n, rule, allowed);
  }

  /** Every rule, without exception: an exact solver clears it exactly when it is dead or
      lists only allowed functions. So a rule that lists none is a violation exactly when it
      is live. */
  lemma ClearedIff(solver: Solver, rule: Rule, allowed: seq<string>)
    requires ExactSolver(solver)
    ensures solver(OnlyCallsQuery(rule, allowed)).Unsat? <==>
            Dead(solver, rule) || (rule.functions.Some? && forall f :: f in rule.functions.value ==> f in allowed)
  {
    hide OnlyCallsQuery, LiveQuery, Satisfies, RuleTerm, Holds, WellSorted, KnowsAll, InternArgs;
    if !solver(OnlyCallsQuery(rule, allowed)).Unsat? {
      var m :| Satisfies(m, OnlyCallsQuery(rule, allowed));
      OnlyCallsSatisfied(m, rule, allowed);
      LiveSatisfied(m, rule);
      if rule.functions.Some? { TermNeedsFunction(m, RuleIds(rule), rule); }
    } else if !Dead(solver, rule) {
      var m :| Satisfies(m, LiveQuery(rule));
      if rule.functions.None? {
        LiveViolates(m, rule, allowed, FreshAddress(set f | f in allowed));
      } else {
        forall f | f in rule.functions.value ensures f in allowed {
          if f !in allowed { LiveViolates(m, rule, allowed, f); }
        }
      }
    }
  }

  /** Every call the rule's program allows is to a listed function. */
  ghost predicate CallsOnly(rule: Rule, allowed: seq<string>)
    requires Analyzable(rule)
  {
    forall inp: EvalInputs :: inp.context.ContractCall? && ProgramAllows(rule, inp) ==> inp.context.fnName in allowed
  }

  /** A model of the query is a call outside the list that the program allows. */
  lemma ViolatesAt(m: Model, rule: Rule, allowed: seq<string>)
    requires Satisfies(m, OnlyCallsQuery(rule, allowed)) && Analyzable(rule) && U32_MAX !in Indexes(ArgsOf(rule))
    ensures !CallsOnly(rule, allowed)
  {
    hide ProgramAllows, Mirrors, WellSorted, RuleTerm, Holds, OnlyCallsQuery, Satisfies, Interned, InternArgs, KnowsAll,
      LiveQuery, Indexes;
    var ids := RuleIds(rule);
    RuleIdsKnow(rule);
    OnlyCallsSatisfied(m, rule, allowed);
    LiveSatisfied(m, rule);
    InvocationMirrors(m, ids, Indexes(ArgsOf(rule)), rule);
    var inp := InvocationOf(m, ids);
    TermMeaning(m, inp, ids, rule);
    assert inp.context.ContractCall? && inp.context.fnName == m.fnName;
  }

  /** An exact solver decides conformance: `Unsat` if and only if every call the program
      allows, for any account, is to a listed function. */
  lemma OnlyCallsDecides(solver: Solver, rule: Rule, allowed: seq<string>)
    requires ExactSolver(solver) && Analyzable(rule) && Unmixed(rule) && Placed(solver, rule)
    ensures solver(OnlyCallsQuery(rule, allowed)).Unsat? <==> CallsOnly(rule, allowed)
  {
    hide ProgramAllows, OnlyCallsQuery, LiveQuery, Satisfies, Unmixed, Analyzable, Indexes, Dead;
    if Dead(solver, rule) { ClearedIff(solver, rule, allowed); }
    if solver(OnlyCallsQuery(rule, allowed)).Unsat? {
      forall inp: EvalInputs | inp.context.ContractCall? && ProgramAllows(rule, inp)
        ensures inp.context.fnName in allowed
      {
        OnlyCallsUnsat(solver, rule, allowed, inp);
      }
    } else {
      var m :| Satisfies(m, OnlyCallsQuery(rule, allowed));
      ViolatesAt(m, rule, allowed);
    }
  }
}
