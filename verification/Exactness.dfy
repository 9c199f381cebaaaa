/** No false alarms (crates/perch-analyze/src/lib.rs): what each finding of `narrows` means,
    and that an empty result is equivalent to narrowing. */
module Exactness {
  import opened Base
  import opened Text
  import opened Program
  import opened Doc
  import opened Compile
  import opened Lowering
  import opened Relocation
  import opened Scripts
  import opened Narrows
  import opened Conformance

  // ----- expiry -----

  /** Some ledger finds the child live and the parent expired. */
  ghost predicate Outlives(crule: Rule, prule: Rule) {
    exists ledger: u32 :: Unexpired(crule, ledger) && !Unexpired(prule, ledger)
  }

  lemma ExpiryMeans(crule: Rule, prule: Rule)
    ensures ExpiryLonger(prule.notAfterLedger, crule.notAfterLedger) <==> Outlives(crule, prule)
  {
    if prule.notAfterLedger.Some? {
      var l := prule.notAfterLedger.value;
      assert !Unexpired(prule, l);
      if ExpiryLonger(prule.notAfterLedger, crule.notAfterLedger) { assert Unexpired(crule, l); }
    }
  }

  // ----- caps -----

  predicate Respects(cap: Option<CapConstraint>, run: seq<Event>, edge: int) {
    cap.Some? ==> RespectsCap(run, CapLimit(cap.value), cap.value.periodLedgers, edge)
  }

  /** Some spending, under some reading of the window's edge, is within the child's cap and
      beyond the parent's. */
  ghost predicate Overspends(ccap: Option<CapConstraint>, pcap: Option<CapConstraint>) {
    exists run: seq<Event>, edge: int :: Respects(ccap, run, edge) && !Respects(pcap, run, edge)
  }

  predicate SameToken(ccap: Option<CapConstraint>, pcap: Option<CapConstraint>) {
    ccap.Some? && pcap.Some? ==> ccap.value.token == pcap.value.token
  }

  /** One event that spends `amount` at ledger 0. */
  function Spending(inp: EvalInputs, amount: nat): seq<Event> {
    [Event(inp.(ledger := 0), amount)]
  }

  lemma SpendingWithin(inp: EvalInputs, amount: nat, limit: int, period: u32, edge: int)
    ensures RespectsCap(Spending(inp, amount), limit, period, edge) <==>
            (if 0 < period + edge then amount else 0) <= limit
  {
    var run := Spending(inp, amount);
    assert run[..1] == run && run[..0] == [];
    assert SpentWithin(run[..0], 0, period + edge) == 0;
    assert SpentWithin(run, 0, period + edge) == if 0 < period + edge then amount else 0;
  }

  /** The spending that tells a looser cap from the parent's: at ledger 0, whoever calls. */
  lemma LooserOverspends(inp: EvalInputs, ccap: Option<CapConstraint>, pcap: Option<CapConstraint>)
    returns (amount: nat, edge: int)
    requires CapLooser(pcap, ccap) && SameToken(ccap, pcap) && (ccap.Some? ==> CapLimit(ccap.value) >= 0)
    ensures Respects(ccap, Spending(inp, amount), edge) && !Respects(pcap, Spending(inp, amount), edge)
  {
    hide CapLimit, RespectsCap, Spending;
    var p := pcap.value;
    var plimit := CapLimit(p);
    if ccap.None? {
      amount, edge := if plimit < 0 then 0 else plimit + 1, 1;
    } else if CapLimit(ccap.value) > plimit {
      amount, edge := CapLimit(ccap.value), 1;
    } else {
      amount, edge := plimit + 1, 0 - ccap.value.periodLedgers;
    }
    SpendingWithin(inp, amount, plimit, p.periodLedgers, edge);
    if ccap.Some? { SpendingWithin(inp, amount, CapLimit(ccap.value), ccap.value.periodLedgers, edge); }
  }

  lemma CapMeans(ccap: Option<CapConstraint>, pcap: Option<CapConstraint>)
    requires ccap.Some? ==> CapLimit(ccap.value) >= 0
    ensures CapLooser(pcap, ccap) <==> !SameToken(ccap, pcap) || Overspends(ccap, pcap)
  {
    hide CapLimit, RespectsCap;
    if CapLooser(pcap, ccap) && SameToken(ccap, pcap) {
      var amount, edge := LooserOverspends(EvalInputs(OtherContext, 0, "", 0), ccap, pcap);
    } else if !CapLooser(pcap, ccap) && pcap.Some? {
      forall run: seq<Event>, edge: int | Respects(ccap, run, edge) ensures Respects(pcap, run, edge) {
        TighterCap(run, pcap.value, ccap.value, edge);
      }
    }
  }

  /** A negative limit admits no spending at all, and is reported as looser than a smaller one
      all the same. */
  lemma NegativeLimitAlarm(c: CapConstraint, p: CapConstraint)
    requires CapLimit(p) < CapLimit(c) < 0
    ensures CapLooser(Some(p), Some(c)) && !Overspends(Some(c), Some(p))
  {
    hide CapLimit;
    forall run: seq<Event>, edge: int | Respects(Some(c), run, edge) ensures Respects(Some(p), run, edge) {
      NothingRespects(run, CapLimit(c), c.periodLedgers, edge);
    }
  }

  lemma NothingRespects(run: seq<Event>, limit: int, period: u32, edge: int)
    requires limit < 0
    ensures RespectsCap(run, limit, period, edge) <==> run == []
  {
    if run != [] { assert SpentWithin(run[..0+1], run[0].inp.ledger, period + edge) >= 0; }
  }

  /** A limit that cannot be read counts as the largest one: nothing is looser than it, and it
      is looser than every limit below that. */
  lemma UnreadableIsLargest(c: CapConstraint, d: CapConstraint)
    requires ParseI128(c.limit).None? && c.token == d.token && c.periodLedgers == d.periodLedgers
    ensures !CapLooser(Some(c), Some(d))
    ensures CapLooser(Some(d), Some(c)) <==> ParseI128(d.limit).Some? && ParseI128(d.limit).value < I128_MAX
  {
  }

  // ----- one pair of rules -----

  /** What is reported for a matched pair, and why. */
  lemma ReportedIff(solver: Solver, prule: Rule, crule: Rule)
    requires crule.cap.Some? ==> CapLimit(crule.cap.value) >= 0
    ensures var fs := MatchedFindings(solver, prule, crule);
            && (ScopeChanged(crule.name) in fs <==> prule.scope != crule.scope)
            && (prule.scope == crule.scope ==>
                  && (ExpiryExtended(crule.name) in fs <==> Outlives(crule, prule))
                  && (CapLoosened(crule.name) in fs <==>
                        !SameToken(crule.cap, prule.cap) || Overspends(crule.cap, prule.cap))
                  && (forall v :: SemanticWidening(crule.name, v) in fs <==>
                                  v == solver(NarrowQuery(crule, prule)) && v.Sat?)
                  && (forall v :: Undecided(crule.name, v) in fs <==>
                                  v == solver(NarrowQuery(crule, prule)) && v.Undetermined?))
  {
    hide NarrowQuery, ExpiryLonger, CapLooser, Outlives, Overspends, CapLimit;
    ExpiryMeans(crule, prule);
    CapMeans(crule.cap, prule.cap);
    var v := solver(NarrowQuery(crule, prule));
    if prule.scope == crule.scope && !v.Unsat? {
      assert MatchedFindings(solver, prule, crule)[0] == SemanticFindings(crule.name, v)[0];
    }
  }

  // ----- whole documents -----

  predicate FirstNamed(rules: seq<Rule>, name: string, j: nat) {
    j < |rules| && rules[j].name == name && forall k :: 0 <= k < j ==> rules[k].name != name
  }

  /** The first parent rule of its name has its scope and its token, and admits every run it
      admits. */
  ghost predicate Narrowed(parent: seq<Rule>, crule: Rule)
    requires Analyzable(crule) && forall k :: 0 <= k < |parent| ==> Analyzable(parent[k])
  {
    exists j: nat :: FirstNamed(parent, crule.name, j) && CarriesOver(crule, parent[j])
  }

  ghost predicate CarriesOver(crule: Rule, prule: Rule)
    requires Analyzable(crule) && Analyzable(prule)
  {
    && prule.scope == crule.scope && SameToken(crule.cap, prule.cap)
    && forall run: seq<Event>, edge: int :: Admits(crule, run, edge) ==> Admits(prule, run, edge)
  }

  /** A rule with some effect: the solver does not prove it dead, it is not expired from the
      start, and its cap is no debt. Every valid rule that is not dead has all of it. */
  predicate Effective(solver: Solver, rule: Rule) {
    && !Dead(solver, rule) && Placed(solver, rule)
    && rule.notAfterLedger != Some(0) && (rule.cap.Some? ==> CapLimit(rule.cap.value) >= 0)
  }

  lemma LedgerFree(rule: Rule, inp: EvalInputs, ledger: u32)
    requires Analyzable(rule)
    ensures ProgramAllows(rule, inp.(ledger := ledger)) <==> ProgramAllows(rule, inp)
  {
    hide ProgramAllows;
    AllowsMeaning(rule, inp);
    AllowsMeaning(rule, inp.(ledger := ledger));
    forall k | 0 <= k < |ArgsOf(rule)|
      ensures ArgHolds(inp.(ledger := ledger), ArgsOf(rule)[k]) <==> ArgHolds(inp, ArgsOf(rule)[k])
    {
    }
  }

  /** A call that spends nothing, at any ledger. */
  lemma FreeCall(rule: Rule, inp: EvalInputs, ledger: u32)
    requires Analyzable(rule) && (rule.cap.Some? ==> CapLimit(rule.cap.value) >= 0)
    ensures Admits(rule, [Event(inp.(ledger := ledger), 0)], 0) <==> ProgramAllows(rule, inp) && Unexpired(rule, ledger)
  {
    hide ProgramAllows, CapLimit, RespectsCap;
    LedgerFree(rule, inp, ledger);
    var run := [Event(inp.(ledger := ledger), 0)];
    if rule.cap.Some? { FreeRespects(run, CapLimit(rule.cap.value), rule.cap.value.periodLedgers); }
    if ProgramAllows(rule, inp) && Unexpired(rule, ledger) {
      forall k | 0 <= k < |run| ensures ProgramAllows(rule, run[k].inp) && Unexpired(rule, run[k].inp.ledger) {
      }
    }
    assert run[0].inp == inp.(ledger := ledger);
  }

  lemma FreeRespects(run: seq<Event>, limit: int, period: u32)
    requires |run| == 1 && run[0].amount == 0 && limit >= 0
    ensures RespectsCap(run, limit, period, 0)
  {
    assert run[..1] == run && run[..0] == [];
    assert SpentWithin(run[..0], run[0].inp.ledger, period) == 0;
  }

  lemma SpendingAdmitted(rule: Rule, inp: EvalInputs, amount: nat, edge: int)
    requires Analyzable(rule) && ProgramAllows(rule, inp) && rule.notAfterLedger != Some(0)
    ensures Admits(rule, Spending(inp, amount), edge) <==> Respects(rule.cap, Spending(inp, amount), edge)
  {
    hide ProgramAllows, CapLimit, RespectsCap;
    LedgerFree(rule, inp, 0);
    var run := Spending(inp, amount);
    forall k | 0 <= k < |run| ensures ProgramAllows(rule, run[k].inp) && Unexpired(rule, run[k].inp.ledger) {
    }
  }

  /** For an effective child, carrying every run over is passing every test of the check. */
  lemma CarriesOverIff(solver: Solver, crule: Rule, prule: Rule)
    requires ExactSolver(solver) && Analyzable(crule) && Analyzable(prule) && Unmixed(crule) && Effective(solver, crule)
    ensures CarriesOver(crule, prule) <==> MatchedFindings(solver, prule, crule) == []
  {
    hide ProgramAllows, Admits, NarrowQuery, Unmixed, Analyzable, Dead, Placed, CapLimit, ExpiryLonger, CapLooser,
      ExactSolver;
    if CarriesOver(crule, prule) {
      CarriedUnsat(solver, crule, prule);
      CarriedInTime(solver, crule, prule);
      CarriedWithin(solver, crule, prule);
    } else if MatchedFindings(solver, prule, crule) == [] {
      assert prule.scope == crule.scope && solver(NarrowQuery(crule, prule)).Unsat?;
      assert !ExpiryLonger(prule.notAfterLedger, crule.notAfterLedger) && !CapLooser(prule.cap, crule.cap);
      CapMeans(crule.cap, prule.cap);
      SoundOfExact(solver);
      forall run: seq<Event>, edge: int | Admits(crule, run, edge) ensures Admits(prule, run, edge) {
        RunCarriesOver(solver, crule, prule, run, edge);
      }
    }
  }

  lemma SoundOfExact(solver: Solver)
    requires ExactSolver(solver)
    ensures SoundSolver(solver)
  {
  }

  lemma CarriedUnsat(solver: Solver, crule: Rule, prule: Rule)
    requires ExactSolver(solver) && Analyzable(crule) && Analyzable(prule) && Unmixed(crule) && Effective(solver, crule)
    requires CarriesOver(crule, prule)
    ensures solver(NarrowQuery(crule, prule)).Unsat?
  {
    hide ProgramAllows, Admits, NarrowQuery, Unmixed, Analyzable, Dead, Placed, CapLimit, ExactSolver;
    forall inp: EvalInputs | ProgramAllows(crule, inp) ensures ProgramAllows(prule, inp) {
      FreeCall(crule, inp, 0);
      AdmitsAllows(prule, inp.(ledger := 0));
      LedgerFree(prule, inp, 0);
    }
    SolverDecidesNarrowing(solver, crule, prule);
  }

  lemma AdmitsAllows(rule: Rule, inp: EvalInputs)
    requires Analyzable(rule)
    ensures Admits(rule, [Event(inp, 0)], 0) ==> ProgramAllows(rule, inp) && Unexpired(rule, inp.ledger)
  {
    hide ProgramAllows, CapLimit, RespectsCap;
    var run := [Event(inp, 0)];
    assert run[0].inp == inp;
  }

  lemma Allowed(solver: Solver, rule: Rule) returns (inp: EvalInputs)
    requires ExactSolver(solver) && Analyzable(rule) && Unmixed(rule) && Effective(solver, rule)
    ensures ProgramAllows(rule, inp)
  {
    hide ProgramAllows, Dead, Placed, ExactSolver, Unmixed;
    DeadDecides(solver, rule);
    inp :| ProgramAllows(rule, inp);
  }

  lemma CarriedInTime(solver: Solver, crule: Rule, prule: Rule)
    requires ExactSolver(solver) && Analyzable(crule) && Analyzable(prule) && Unmixed(crule) && Effective(solver, crule)
    requires CarriesOver(crule, prule)
    ensures !ExpiryLonger(prule.notAfterLedger, crule.notAfterLedger)
  {
    hide ProgramAllows, Admits, NarrowQuery, Unmixed, Analyzable, Dead, Placed, CapLimit, ExpiryLonger, ExactSolver;
    ExpiryMeans(crule, prule);
    if Outlives(crule, prule) {
      var ledger: u32 :| Unexpired(crule, ledger) && !Unexpired(prule, ledger);
      var inp := Allowed(solver, crule);
      FreeCall(crule, inp, ledger);
      AdmitsAllows(prule, inp.(ledger := ledger));
    }
  }

  lemma CarriedWithin(solver: Solver, crule: Rule, prule: Rule)
    requires ExactSolver(solver) && Analyzable(crule) && Analyzable(prule) && Unmixed(crule) && Effective(solver, crule)
    requires CarriesOver(crule, prule)
    ensures !CapLooser(prule.cap, crule.cap)
  {
    hide ProgramAllows, Admits, NarrowQuery, Unmixed, Analyzable, Dead, Placed, CapLimit, CapLooser, RespectsCap,
      Spending, ExactSolver;
    if CapLooser(prule.cap, crule.cap) {
      var inp := Allowed(solver, crule);
      var amount, edge := LooserOverspends(inp, crule.cap, prule.cap);
      SpendingAdmitted(crule, inp, amount, edge);
      AdmitsRespects(prule, Spending(inp, amount), edge);
    }
  }

  lemma AdmitsRespects(rule: Rule, run: seq<Event>, edge: int)
    requires Analyzable(rule)
    ensures Admits(rule, run, edge) ==> Respects(rule.cap, run, edge)
  {
    hide ProgramAllows, CapLimit, RespectsCap;
  }

  lemma {:induction false} FindingsEmptyIff(solver: Solver, parent: seq<Rule>, child: seq<Rule>)
    ensures Findings(solver, parent, child) == [] <==>
            forall i :: 0 <= i < |child| ==> RuleFindings(solver, parent, child[i]) == []
  {
    hide RuleFindings;
    if child != [] {
      var init := child[..|child|-1];
      FindingsEmptyIff(solver, parent, init);
      assert forall i :: 0 <= i < |init| ==> init[i] == child[i];
    }
  }

  lemma FirstIsFound(rules: seq<Rule>, name: string, j: nat)
    ensures FirstNamed(rules, name, j) <==> FindRule(rules, name) == Some(j)
  {
    FindRuleIsFirst(rules, name);
  }

  /** An empty result is narrowing: for effective children and an exact solver, nothing is
      reported if and only if every child rule has the first parent rule of its name with its
      scope and its token, and every run carries over. */
  lemma NarrowsIff(solver: Solver, parent: PolicyDoc, child: PolicyDoc)
    requires ExactSolver(solver) && forall k :: 0 <= k < |parent.rules| ==> Analyzable(parent.rules[k])
    requires forall i :: 0 <= i < |child.rules| ==>
               Analyzable(child.rules[i]) && Unmixed(child.rules[i]) && Effective(solver, child.rules[i])
    ensures Findings(solver, parent.rules, child.rules) == [] <==>
            forall i :: 0 <= i < |child.rules| ==> Narrowed(parent.rules, child.rules[i])
  {
    hide ExactSolver, Analyzable, Unmixed, Effective, CarriesOver, MatchedFindings, FindRule, Findings;
    FindingsEmptyIff(solver, parent.rules, child.rules);
    forall i | 0 <= i < |child.rules|
      ensures RuleFindings(solver, parent.rules, child.rules[i]) == [] <==> Narrowed(parent.rules, child.rules[i])
    {
      RuleNarrowed(solver, parent.rules, child.rules[i]);
    }
  }

  lemma RuleNarrowed(solver: Solver, parent: seq<Rule>, crule: Rule)
    requires ExactSolver(solver) && Analyzable(crule) && Unmixed(crule) && Effective(solver, crule)
    requires forall k :: 0 <= k < |parent| ==> Analyzable(parent[k])
    ensures RuleFindings(solver, parent, crule) == [] <==> Narrowed(parent, crule)
  {
    hide ExactSolver, Analyzable, Unmixed, Effective, CarriesOver, MatchedFindings, FirstNamed;
    var at := FindRule(parent, crule.name);
    FindRuleIsFirst(parent, crule.name);
    if at.Some? {
      FirstIsFound(parent, crule.name, at.value);
      CarriesOverIff(solver, crule, parent[at.value]);
      forall j: nat | FirstNamed(parent, crule.name, j) ensures j == at.value { FirstIsFound(parent, crule.name, j); }
    } else {
      forall j: nat ensures !FirstNamed(parent, crule.name, j) { FirstIsFound(parent, crule.name, j); }
    }
  }

  /** A dead child admits nothing but the empty run, so it narrows any parent, and is reported
      as outliving it all the same. */
  lemma DeadChildAlarm(solver: Solver, crule: Rule, prule: Rule)
    requires SoundSolver(solver) && Dead(solver, crule) && Analyzable(crule) && Analyzable(prule) && Unmixed(crule)
    requires prule.scope == crule.scope && SameToken(crule.cap, prule.cap) && Outlives(crule, prule)
    ensures CarriesOver(crule, prule) && ExpiryExtended(crule.name) in MatchedFindings(solver, prule, crule)
  {
    hide ProgramAllows, NarrowQuery, Dead, Analyzable, ExpiryLonger, CapLooser, CapLimit, Outlives;
    ExpiryMeans(crule, prule);
    forall run: seq<Event>, edge: int | Admits(crule, run, edge) ensures Admits(prule, run, edge) {
      if run != [] { DeadSound(solver, crule, run[0].inp); }
      EmptyRespects(prule, edge);
    }
  }

  lemma EmptyRespects(rule: Rule, edge: int)
    requires Analyzable(rule)
    ensures Admits(rule, [], edge)
  {
  }
}
