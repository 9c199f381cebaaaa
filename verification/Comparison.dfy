/** The two narrowing checks compared: exactly when the semantic one
    (crates/perch-analyze/src/lib.rs) implies the coarse one
    (crates/perch-compile/src/attenuation.rs). */
module Comparison {
  import opened Base
  import opened Text
  import opened Program
  import opened Doc
  import opened Compile
  import opened Lowering
  import opened Attenuation
  import opened Encoder
  import opened Agreement
  import opened Scripts
  import opened Narrows

  // ----- one rule -----

  /** What the coarse check asks of two rules on one scope. */
  ghost predicate ListCovers(prule: Rule, crule: Rule) {
    prule.functions.Some? ==>
      crule.functions.Some? && forall f :: f in crule.functions.value ==> f in prule.functions.value
  }

  /** A model of the child, as a call the parent does not list, is a model of the query. */
  lemma UnlistedWidens(m: Model, crule: Rule, prule: Rule, f: string)
    requires Satisfies(m, LiveQuery(crule)) && MayCall(crule, f)
    requires prule.functions.Some? && f !in prule.functions.value
    ensures exists n :: Satisfies(n, NarrowQuery(crule, prule))
  {
    hide Satisfies, NarrowQuery, LiveQuery, RuleTerm, Holds, Interned, InternArgs, WellSorted, Indexes;
    var ids, more := BothIds(crule, prule), Indexes(ArgsOf(prule));
    var n := Calling(m, f, more);
    BothIdsKnow(crule, prule);
    LiveSatisfied(m, crule);
    LiveCalling(m, ids, crule, f, more);
    CallingSorted(m, f, Indexes(ArgsOf(crule)), more);
    if Holds(n, RuleTerm(ids, prule)) { TermNeedsFunction(n, ids, prule); }
    QuerySatisfied(n, crule, prule);
  }

  /** Cleared by the solver, a child with a model lists no function its parent does not. */
  lemma LiveCovers(solver: Solver, crule: Rule, prule: Rule)
    requires SoundSolver(solver) && solver(NarrowQuery(crule, prule)).Unsat? && HasModel(crule)
    ensures ListCovers(prule, crule)
  {
    hide Satisfies, NarrowQuery, LiveQuery;
    var m :| Satisfies(m, LiveQuery(crule));
    if prule.functions.Some? {
      var fns := prule.functions.value;
      if crule.functions.None? {
        UnlistedWidens(m, crule, prule, FreshAddress(set f | f in fns));
      } else {
        forall f | f in crule.functions.value ensures f in fns {
          if f !in fns { UnlistedWidens(m, crule, prule, f); }
        }
      }
    }
  }

  /** Against every parent, `Unsat` implies coverage exactly for the children the solver does
      not prove dead, and those that list no function at all. */
  lemma CoverageIff(solver: Solver, crule: Rule)
    requires ExactSolver(solver)
    ensures !Dead(solver, crule) || crule.functions == Some([]) <==>
            forall prule :: solver(NarrowQuery(crule, prule)).Unsat? ==> ListCovers(prule, crule)
  {
    hide Satisfies, NarrowQuery, LiveQuery, Dead;
    DeadIff(solver, crule);
    if !Dead(solver, crule) {
      forall prule | solver(NarrowQuery(crule, prule)).Unsat? ensures ListCovers(prule, crule) {
        LiveCovers(solver, crule, prule);
      }
    } else {
      DeadNarrows(solver, crule, NoFunctions(crule));
      NothingCovers(crule, crule);
    }
  }

  lemma NothingCovers(prule: Rule, crule: Rule)
    ensures ListCovers(NoFunctions(prule), crule) <==> crule.functions == Some([])
  {
    if crule.functions.Some? && crule.functions.value != [] {
      assert crule.functions.value[0] in crule.functions.value;
    }
  }

  // ----- whole documents -----

  /** What the coarse check sees of a lowered rule: its function list. */
  lemma LoweredFunctions(signers: seq<SignerDecl>, rule: Rule)
    requires Lowerable(rule) && LowerRule(signers, rule).Ok?
    ensures var fns := RuleFunctions(LowerRule(signers, rule).value);
            if rule.functions.None? then fns.AnyFn?
            else fns.Only? && forall f :: f in fns.fns <==> f in rule.functions.value
  {
    hide Listed, SawFnIn;
    if Attaches(rule) { ConjunctionFunctions(rule, SignerFloor(rule)); }
  }

  lemma CoverageLowered(psigners: seq<SignerDecl>, prule: Rule, csigners: seq<SignerDecl>, crule: Rule)
    requires Lowerable(crule) && LowerRule(csigners, crule).Ok? && Lowerable(prule) && LowerRule(psigners, prule).Ok?
    ensures FnCovers(RuleFunctions(LowerRule(psigners, prule).value),
                     RuleFunctions(LowerRule(csigners, crule).value)) <==>
            ListCovers(prule, crule)
  {
    hide LowerRule, RuleFunctions;
    LoweredFunctions(csigners, crule);
    LoweredFunctions(psigners, prule);
    var c := RuleFunctions(LowerRule(csigners, crule).value);
    if c.Only? { assert forall f :: f in c.fns <==> exists i :: 0 <= i < |c.fns| && c.fns[i] == f; }
  }

  /** The coarse check on two compiled documents, read off their rules. */
  lemma CoarseIff(parent: PolicyDoc, child: PolicyDoc, hash: string)
    requires AllLowerable(parent.rules) && AllLowerable(child.rules)
    requires CompileDoc(parent, hash).Ok? && CompileDoc(child, hash).Ok?
    ensures IsNarrowing(CompileDoc(parent, hash).value, CompileDoc(child, hash).value) == None <==>
            forall i :: 0 <= i < |child.rules| ==> CoveredBy(parent.rules, child.rules[i])
  {
    hide LowerRule, RuleFunctions, FnCovers, ListCovers, Countable, Lowerable;
    LowerRulesPointwise(parent.signers, parent.rules);
    LowerRulesPointwise(child.signers, child.rules);
    var rp, rc := ReachableCalls(CompileDoc(parent, hash).value), ReachableCalls(CompileDoc(child, hash).value);
    UncoveredIff(rp, rc);
    forall i | 0 <= i < |rc| ensures Covered(rp, rc[i]) <==> CoveredBy(parent.rules, child.rules[i]) {
      LoweredScope(child.signers, child.rules[i]);
      forall j | 0 <= j < |rp|
        ensures rp[j].scope == rc[i].scope && FnCovers(rp[j].functions, rc[i].functions) <==>
                parent.rules[j].scope == child.rules[i].scope && ListCovers(parent.rules[j], child.rules[i])
      {
        LoweredScope(parent.signers, parent.rules[j]);
        CoverageLowered(parent.signers, parent.rules[j], child.signers, child.rules[i]);
      }
    }
  }

  ghost predicate CoveredBy(rules: seq<Rule>, crule: Rule) {
    exists j :: 0 <= j < |rules| && rules[j].scope == crule.scope && ListCovers(rules[j], crule)
  }

  /** The rule lists no function, or some rule on its scope, itself perhaps, covers it and has
      a model. */
  ghost predicate ModelBacked(rules: seq<Rule>, crule: Rule) {
    crule.functions == Some([]) ||
    exists k :: 0 <= k < |rules| && rules[k].scope == crule.scope && HasModel(rules[k]) && ListCovers(rules[k], crule)
  }

  /** The same by the solver's verdicts: the covering rule is not reported dead. */
  ghost predicate Backed(solver: Solver, rules: seq<Rule>, crule: Rule) {
    crule.functions == Some([]) ||
    exists k ::
      0 <= k < |rules| && rules[k].scope == crule.scope && !Dead(solver, rules[k]) && ListCovers(rules[k], crule)
  }

  /** With any sound solver, an empty `narrows` result implies the coarse check for children
      whose rules are all backed by rules with a model. */
  lemma ModelsImplyCoarse(solver: Solver, parent: PolicyDoc, child: PolicyDoc, hash: string)
    requires SoundSolver(solver) && Findings(solver, parent.rules, child.rules) == []
    requires CompilesTo(parent, hash) && CompilesTo(child, hash)
    requires forall i :: 0 <= i < |child.rules| ==> ModelBacked(child.rules, child.rules[i])
    ensures IsNarrowing(CompileDoc(parent, hash).value, CompileDoc(child, hash).value) == None
  {
    hide CompileDoc, IsNarrowing, Findings, NarrowQuery, Lowerable, HasModel;
    CoarseIff(parent, child, hash);
    forall i | 0 <= i < |child.rules| ensures CoveredBy(parent.rules, child.rules[i]) {
      var c := child.rules[i];
      var k := i;
      if c.functions != Some([]) {
        k :| 0 <= k < |child.rules| && child.rules[k].scope == c.scope && HasModel(child.rules[k])
             && ListCovers(child.rules[k], c);
      }
      var j := MatchedRule(solver, parent.rules, child.rules, k);
      if c.functions != Some([]) { LiveCovers(solver, child.rules[k], parent.rules[j]); }
      assert parent.rules[j].scope == c.scope && ListCovers(parent.rules[j], c);
    }
  }

  /** With an exact solver: for children whose rules are all backed by rules not reported
      dead; in particular for children without a rule reported dead. */
  lemma SemanticImpliesCoarse(solver: Solver, parent: PolicyDoc, child: PolicyDoc, hash: string)
    requires ExactSolver(solver) && Findings(solver, parent.rules, child.rules) == []
    requires CompilesTo(parent, hash) && CompilesTo(child, hash)
    requires forall i :: 0 <= i < |child.rules| ==> Backed(solver, child.rules, child.rules[i])
    ensures IsNarrowing(CompileDoc(parent, hash).value, CompileDoc(child, hash).value) == None
  {
    hide CompileDoc, IsNarrowing, Findings, Dead, Lowerable, HasModel, ListCovers;
    forall i | 0 <= i < |child.rules| ensures ModelBacked(child.rules, child.rules[i]) {
      var c := child.rules[i];
      if c.functions != Some([]) {
        var k :| 0 <= k < |child.rules| && child.rules[k].scope == c.scope && !Dead(solver, child.rules[k])
                 && ListCovers(child.rules[k], c);
        DeadIff(solver, child.rules[k]);
      }
    }
    ModelsImplyCoarse(solver, parent, child, hash);
  }

  /** A child none of whose rules is reported dead is backed. */
  lemma LiveBacked(solver: Solver, rules: seq<Rule>, i: nat)
    requires i < |rules| && !Dead(solver, rules[i])
    ensures Backed(solver, rules, rules[i])
  {
    hide Dead;
    assert ListCovers(rules[i], rules[i]);
  }

  // ----- the least parent -----

  /** The child itself, with the rules reported dead replaced by rules that allow nothing. */
  function Least(solver: Solver, rules: seq<Rule>): (r: seq<Rule>)
    ensures |r| == |rules|
  {
    seq(|rules|, i requires 0 <= i < |rules| => if Dead(solver, rules[i]) then NoFunctions(rules[i]) else rules[i])
  }

  lemma NoFunctionsLowers(signers: seq<SignerDecl>, rule: Rule)
    requires Lowerable(rule) && LowerRule(signers, rule).Ok?
    ensures Lowerable(NoFunctions(rule)) && LowerRule(signers, NoFunctions(rule)).Ok?
  {
  }

  lemma LeastFindings(solver: Solver, rule: Rule)
    requires ExactSolver(solver)
    ensures MatchedFindings(solver, if Dead(solver, rule) then NoFunctions(rule) else rule, rule) == []
  {
    hide NarrowQuery, Dead, CapLimit;
    if Dead(solver, rule) {
      DeadNarrows(solver, rule, NoFunctions(rule));
    } else {
      SelfQueryUnsat(solver, rule);
    }
  }

  lemma {:induction false} LeastNarrows(solver: Solver, rules: seq<Rule>, k: nat)
    requires ExactSolver(solver) && DistinctNames(rules) && k <= |rules|
    ensures Findings(solver, Least(solver, rules), rules[..k]) == []
  {
    hide MatchedFindings, ExactSolver, Dead;
    if k > 0 {
      var rule, least := rules[k - 1], Least(solver, rules);
      LeastNarrows(solver, rules, k - 1);
      FindRuleIsFirst(least, rule.name);
      LeastFindings(solver, rule);
      assert rules[..k][..k-1] == rules[..k-1];
      assert least[k - 1].name == rule.name;
      assert FindRule(least, rule.name) == Some(k - 1);
    }
  }

  /** The exact relation of the two checks: an empty `narrows` result implies the coarse
      check against every parent if and only if every rule of the child is backed. */
  lemma CoarseExactly(solver: Solver, child: PolicyDoc, hash: string)
    requires ExactSolver(solver) && DistinctNames(child.rules) && AllLowerable(child.rules) &&
             CompileDoc(child, hash).Ok?
    ensures (forall i :: 0 <= i < |child.rules| ==> Backed(solver, child.rules, child.rules[i])) <==>
            forall parent: PolicyDoc ::
              CompilesTo(parent, hash) && Findings(solver, parent.rules, child.rules) == [] ==>
              IsNarrowing(CompileDoc(parent, hash).value, CompileDoc(child, hash).value) == None
  {
    hide CompileDoc, IsNarrowing, Findings, Dead, Lowerable, DistinctNames, Backed, ExactSolver;
    if forall i :: 0 <= i < |child.rules| ==> Backed(solver, child.rules, child.rules[i]) {
      forall parent: PolicyDoc | CompilesTo(parent, hash) && Findings(solver, parent.rules, child.rules) == []
        ensures IsNarrowing(CompileDoc(parent, hash).value, CompileDoc(child, hash).value) == None
      {
        SemanticImpliesCoarse(solver, parent, child, hash);
      }
    } else {
      var least := child.(rules := Least(solver, child.rules));
      LeastCompiles(solver, child, hash);
      LeastNarrows(solver, child.rules, |child.rules|);
      assert child.rules[..|child.rules|] == child.rules;
      CoarseIff(least, child, hash);
      var i :| 0 <= i < |child.rules| && !Backed(solver, child.rules, child.rules[i]);
      if CoveredBy(least.rules, child.rules[i]) { LeastBacks(solver, child.rules, i); }
    }
  }

  ghost predicate CompilesTo(doc: PolicyDoc, hash: string) {
    AllLowerable(doc.rules) && CompileDoc(doc, hash).Ok?
  }

  lemma LeastCompiles(solver: Solver, child: PolicyDoc, hash: string)
    requires AllLowerable(child.rules) && CompileDoc(child, hash).Ok?
    ensures CompilesTo(child.(rules := Least(solver, child.rules)), hash)
  {
    hide LowerRule, Dead, Lowerable, NoFunctions;
    var least := Least(solver, child.rules);
    LowerRulesPointwise(child.signers, child.rules);
    forall i | 0 <= i < |least| ensures Lowerable(least[i]) && LowerRule(child.signers, least[i]).Ok? {
      NoFunctionsLowers(child.signers, child.rules[i]);
    }
    LowerRulesPointwise(child.signers, least);
  }

  lemma LeastBacks(solver: Solver, rules: seq<Rule>, i: nat)
    requires i < |rules| && CoveredBy(Least(solver, rules), rules[i])
    ensures Backed(solver, rules, rules[i])
  {
    hide Dead;
    var least, c := Least(solver, rules), rules[i];
    var j :| 0 <= j < |least| && least[j].scope == c.scope && ListCovers(least[j], c);
    NothingCovers(rules[j], c);
  }

  lemma LoweredScope(signers: seq<SignerDecl>, rule: Rule)
    requires Lowerable(rule) && LowerRule(signers, rule).Ok?
    ensures LowerRule(signers, rule).value.scope == rule.scope && LowerRule(signers, rule).value.name == rule.name
  {
  }

  // ----- a dead child separates them -----

  /** One function, and a string argument that no decodable value satisfies when `v` is over
      the comparison buffer. */
  function OverLong(base: Rule, f: Symbol, v: string): Rule {
    base.(functions := Some([f]), args := Some([ArgConstraint(0, StringIn([v]))]))
  }

  function OneRule(signers: seq<SignerDecl>, rule: Rule): PolicyDoc {
    PolicyDoc(1, None, signers, [rule], None)
  }

  lemma OverLongHasNoModel(m: Model, base: Rule, f: Symbol, v: string, prule: Rule)
    requires |Utf8(v)| > MAX_STR_ARG_LEN
    ensures !Satisfies(m, NarrowQuery(OverLong(base, f, v), prule))
  {
    hide Satisfies, NarrowQuery, WellSorted, InternArgs, Interned, Utf8, RuleTerm;
    var crule := OverLong(base, f, v);
    var ids := BothIds(crule, prule);
    BothIdsKnow(crule, prule);
    QuerySatisfied(m, crule, prule);
    if Holds(m, RuleTerm(ids, crule)) {
      TermNeedsPred(m, ids, crule, 0);
      AndOfTwo(m, ArgPresent(0), PredBody(ids, 0, StringIn([v])));
      OverLongBody(m, ids, v);
    }
  }

  lemma OverLongBody(m: Model, ids: AddressIds, v: string)
    requires |Utf8(v)| > MAX_STR_ARG_LEN
    ensures !Holds(m, PredBody(ids, 0, StringIn([v])))
  {
    hide Utf8;
    var alts := TextAlternatives(0, [v]);
    assert [v][..0] == [] && TextAlternatives(0, []) == [];
    AndOfThree(m, ArgTypeIs(0, T_STR), ArgStrLenAtMost(0, MAX_STR_ARG_LEN), Disj(alts));
  }

  /** A dead child passes the semantic check against a parent that lists another function,
      and the coarse check reports it. */
  lemma DeadChildSeparates(solver: Solver, signers: seq<SignerDecl>, base: Rule, f: Symbol, g: Symbol, v: string,
                           hash: string)
    requires ExactSolver(solver) && |Utf8(v)| > MAX_STR_ARG_LEN && f != g
    requires Lowerable(base) && LowerRule(signers, OverLong(base, f, v)).Ok? &&
             LowerRule(signers, OverLong(base, g, v)).Ok?
    ensures var parent, child := OneRule(signers, OverLong(base, f, v)), OneRule(signers, OverLong(base, g, v));
            && Findings(solver, parent.rules, child.rules) == []
            && CompileDoc(parent, hash).Ok? && CompileDoc(child, hash).Ok?
            && IsNarrowing(CompileDoc(parent, hash).value, CompileDoc(child, hash).value) == Some(base.name)
  {
    hide NarrowQuery, Satisfies, LowerRule, RuleFunctions, Utf8;
    var pr, cr := OverLong(base, f, v), OverLong(base, g, v);
    if !solver(NarrowQuery(cr, pr)).Unsat? {
      var m :| Satisfies(m, NarrowQuery(cr, pr));
      OverLongHasNoModel(m, base, g, v, pr);
    }
    DeadFindings(solver, pr, cr);
    OneRulePlan(signers, pr, hash);
    OneRulePlan(signers, cr, hash);
    LoweredFunctions(signers, pr);
    LoweredFunctions(signers, cr);
    LoweredScope(signers, cr);
    DeadUncovered(LowerRule(signers, pr).value, LowerRule(signers, cr).value, f, g,
                  CompileDoc(OneRule(signers, pr), hash).value, CompileDoc(OneRule(signers, cr), hash).value);
  }

  lemma DeadFindings(solver: Solver, pr: Rule, cr: Rule)
    requires pr.name == cr.name && pr.scope == cr.scope && pr.notAfterLedger == cr.notAfterLedger && pr.cap == cr.cap
    requires solver(NarrowQuery(cr, pr)).Unsat?
    ensures Findings(solver, [pr], [cr]) == []
  {
    hide NarrowQuery, CapLimit;
    assert [cr][..0] == [] && FindRule([pr], cr.name) == Some(0);
    assert MatchedFindings(solver, pr, cr) == [];
    assert Findings(solver, [pr], []) == [];
  }

  lemma OneRulePlan(signers: seq<SignerDecl>, rule: Rule, hash: string)
    requires Lowerable(rule) && LowerRule(signers, rule).Ok?
    ensures CompileDoc(OneRule(signers, rule), hash).Ok?
    ensures CompileDoc(OneRule(signers, rule), hash).value.rules == [LowerRule(signers, rule).value]
  {
    hide LowerRule, Lowerable;
    assert [rule][..0] == [];
    assert LowerRules(signers, []) == Ok([]);
  }

  lemma DeadUncovered(pr: LoweredRule, cr: LoweredRule, f: Symbol, g: Symbol, parent: Plan, child: Plan)
    requires parent.rules == [pr] && child.rules == [cr] && f != g
    requires RuleFunctions(pr).Only? && forall h :: h in RuleFunctions(pr).fns <==> h in [f]
    requires RuleFunctions(cr).Only? && forall h :: h in RuleFunctions(cr).fns <==> h in [g]
    ensures IsNarrowing(parent, child) == Some(cr.name)
  {
    hide RuleFunctions;
    var p, c := RuleFunctions(pr).fns, RuleFunctions(cr).fns;
    assert g in c && g !in p;
    var k :| 0 <= k < |c| && c[k] == g;
    assert !FnCovers(RuleFunctions(pr), RuleFunctions(cr));
    assert !Covered(ReachableCalls(parent), ReachableCalls(child)[0]);
  }
}
