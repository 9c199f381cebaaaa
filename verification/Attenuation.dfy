/** The coarse narrowing check on plans (crates/perch-compile/src/attenuation.rs) and the
    function sets it compares (crates/perch-compile/src/analysis.rs). */
module Attenuation {
  import opened Base
  import opened Text
  import opened StackMachine
  import opened Program
  import opened Doc
  import opened Compile
  import opened Lowering
  import opened Analysis
  import Validate

  datatype FnSet = AnyFn | Only(fns: seq<Symbol>) {
    predicate Has(f: Symbol) { AnyFn? || f in fns }
  }

  datatype ReachableScope = ReachableScope(rule: string, scope: Scope, functions: FnSet)

  // ----- function sets -----

  /** `fns` extended by the members of `more` it lacks, in order. */
  function Extend(fns: seq<Symbol>, more: seq<Symbol>): seq<Symbol> {
    if more == [] then fns
    else
      var r := Extend(fns, more[..|more|-1]);
      var f := more[|more|-1];
      if f in r then r else r + [f]
  }

  predicate IsFnIn(op: ProgramOp) { op.Leaf? && op.leaf.FnIn? }

  predicate SawFnIn(ops: seq<ProgramOp>) {
    exists i :: 0 <= i < |ops| && IsFnIn(ops[i])
  }

  /** All functions any function list of the program names, first mention first. */
  function Listed(ops: seq<ProgramOp>): seq<Symbol> {
    if ops == [] then []
    else
      var init := Listed(ops[..|ops|-1]);
      var op := ops[|ops|-1];
      if IsFnIn(op) then Extend(init, op.leaf.fns) else init
  }

  function RuleFunctions(rule: LoweredRule): FnSet {
    if rule.install.Some? && SawFnIn(rule.install.value.program.ops)
    then Only(Listed(rule.install.value.program.ops))
    else AnyFn
  }

  method CollectFunctions(rule: LoweredRule) returns (r: FnSet)
    ensures r == RuleFunctions(rule)
  {
    if rule.install.None? { return AnyFn; }
    var ops := rule.install.value.program.ops;
    var fns: seq<Symbol> := [];
    var sawFnIn := false;
    for k := 0 to |ops|
      invariant fns == Listed(ops[..k]) && sawFnIn == SawFnIn(ops[..k])
    {
      assert ops[..k+1][..k] == ops[..k] && ops[..k+1][k] == ops[k];
      assert SawFnIn(ops[..k+1]) <==> SawFnIn(ops[..k]) || IsFnIn(ops[k]);
      if IsFnIn(ops[k]) {
        sawFnIn := true;
        var names := ops[k].leaf.fns;
        ghost var before := fns;
        for j := 0 to |names|
          invariant fns == Extend(before, names[..j])
        {
          assert names[..j+1][..j] == names[..j];
          if names[j] !in fns { fns := fns + [names[j]]; }
        }
        assert names[..|names|] == names;
      }
    }
    assert ops[..|ops|] == ops;
    return if sawFnIn then Only(fns) else AnyFn;
  }

  lemma {:induction false} ExtendMembers(fns: seq<Symbol>, more: seq<Symbol>, f: Symbol)
    ensures f in Extend(fns, more) <==> f in fns || f in more
    ensures NoDuplicates(fns) ==> NoDuplicates(Extend(fns, more))
  {
    if more != [] {
      ExtendMembers(fns, more[..|more|-1], f);
      assert more == more[..|more|-1] + [more[|more|-1]];
    }
  }

  /** The set holds exactly the functions some list names, each once. */
  lemma {:induction false} ListedMembers(ops: seq<ProgramOp>, f: Symbol)
    ensures f in Listed(ops) <==> exists i :: 0 <= i < |ops| && IsFnIn(ops[i]) && f in ops[i].leaf.fns
    ensures NoDuplicates(Listed(ops))
  {
    if ops != [] {
      var init, op := ops[..|ops|-1], ops[|ops|-1];
      ListedMembers(init, f);
      assert forall i :: 0 <= i < |init| ==> init[i] == ops[i];
      if IsFnIn(op) { ExtendMembers(Listed(init), op.leaf.fns, f); }
    }
  }

  // ----- the check -----

  function Reach(rule: LoweredRule): ReachableScope {
    ReachableScope(rule.name, rule.scope, RuleFunctions(rule))
  }

  function ReachableCalls(plan: Plan): (r: seq<ReachableScope>)
    ensures |r| == |plan.rules|
  {
    seq(|plan.rules|, i requires 0 <= i < |plan.rules| => Reach(plan.rules[i]))
  }

  predicate FnCovers(parent: FnSet, child: FnSet) {
    match (parent, child)
    case (AnyFn, _) => true
    case (Only(_), AnyFn) => false
    case (Only(p), Only(c)) => forall i :: 0 <= i < |c| ==> c[i] in p
  }

  predicate Covered(parent: seq<ReachableScope>, c: ReachableScope) {
    exists j :: 0 <= j < |parent| && parent[j].scope == c.scope && FnCovers(parent[j].functions, c.functions)
  }

  /** The name of the first uncovered child rule. */
  function FirstUncovered(parent: seq<ReachableScope>, child: seq<ReachableScope>): Option<string> {
    if child == [] then None
    else if !Covered(parent, child[0]) then Some(child[0].rule)
    else FirstUncovered(parent, child[1..])
  }

  function IsNarrowing(parent: Plan, child: Plan): Option<string> {
    FirstUncovered(ReachableCalls(parent), ReachableCalls(child))
  }

  lemma {:induction false} UncoveredIff(parent: seq<ReachableScope>, child: seq<ReachableScope>)
    ensures FirstUncovered(parent, child).None? <==> forall i :: 0 <= i < |child| ==> Covered(parent, child[i])
  {
    hide Covered;
    if child != [] {
      UncoveredIff(parent, child[1..]);
      assert forall i :: 1 <= i < |child| ==> child[i] == child[1..][i-1];
      if FirstUncovered(parent, child[1..]).Some? && Covered(parent, child[0]) {
        var i :| 0 <= i < |child[1..]| && !Covered(parent, child[1..][i]);
        assert child[i + 1] == child[1..][i];
      }
    }
  }

  lemma NarrowingReflexive(plan: Plan)
    ensures IsNarrowing(plan, plan) == None
  {
    var r := ReachableCalls(plan);
    UncoveredIff(r, r);
    forall i | 0 <= i < |r| ensures Covered(r, r[i]) {
      assert FnCovers(r[i].functions, r[i].functions);
    }
  }

  lemma NarrowingTransitive(a: Plan, b: Plan, c: Plan)
    requires IsNarrowing(a, b) == None && IsNarrowing(b, c) == None
    ensures IsNarrowing(a, c) == None
  {
    var ra, rb, rc := ReachableCalls(a), ReachableCalls(b), ReachableCalls(c);
    UncoveredIff(ra, rb);
    UncoveredIff(rb, rc);
    UncoveredIff(ra, rc);
    forall k | 0 <= k < |rc| ensures Covered(ra, rc[k]) {
      assert Covered(rb, rc[k]);
      var j :| 0 <= j < |rb| && rb[j].scope == rc[k].scope && FnCovers(rb[j].functions, rc[k].functions);
      assert Covered(ra, rb[j]);
      var i :| 0 <= i < |ra| && ra[i].scope == rb[j].scope && FnCovers(ra[i].functions, rb[j].functions);
      assert FnCovers(ra[i].functions, rc[k].functions);
    }
  }

  // ----- soundness -----

  /** Leaf intervals when no function list is satisfied; the rest as the analysis has them. */
  function PinnedInterval(p: Predicate): Interval {
    if p.FnIn? then Interval(False, Unknown) else LeafInterval(p)
  }

  function Pinned(): Predicate -> Interval {
    (p: Predicate) => PinnedInterval(p)
  }

  /** The best the program can do while no function list of it is satisfied. */
  function PinnedBest(ops: seq<ProgramOp>): Verdict {
    Upper(Pinned(), ops)
  }

  lemma {:induction false} KidOps(ts: seq<Tree<Predicate>>, k: nat, op: ProgramOp)
    requires k < |ts| && op in Postfix(ts[k])
    ensures op in PostfixAll(ts)
  {
    if k < |ts| - 1 { KidOps(ts[..|ts|-1], k, op); }
  }

  /** Only the leaves a tree has matter to its fold. */
  lemma {:induction false} FoldAgrees(f: Predicate -> Verdict, g: Predicate -> Verdict, t: Tree<Predicate>)
    requires WellFormed(t) && forall p :: Op.Leaf(p) in Postfix(t) ==> f(p) == g(p)
    ensures Fold(Kleene(f), t) == Fold(Kleene(g), t)
    decreases t
  {
    assert Postfix(t)[|PostfixAll(t.kids)|] == t.op;
    forall k | 0 <= k < |t.kids| ensures Fold(Kleene(f), t.kids[k]) == Fold(Kleene(g), t.kids[k]) {
      forall p | Op.Leaf(p) in Postfix(t.kids[k]) ensures f(p) == g(p) {
        KidOps(t.kids, k, Op.Leaf(p));
      }
      FoldAgrees(f, g, t.kids[k]);
    }
    assert FoldAll(Kleene(f), t.kids) == FoldAll(Kleene(g), t.kids);
  }

  /** The invocation's leaf verdicts, with every satisfied function list denied. */
  function Unlisted(inp: EvalInputs): Predicate -> Verdict {
    (p: Predicate) => if p.FnIn? && LeafVerdict(inp, p) == True then False else LeafVerdict(inp, p)
  }

  lemma UnlistedWithin(inp: EvalInputs)
    ensures forall p :: Pinned()(p).Contains(Unlisted(inp)(p))
  {
    LeafWithin(inp);
  }

  /** If no list names the invoked function, the leaf verdicts are the unlisted ones. */
  lemma UnlistedAgrees(inp: EvalInputs, ops: seq<ProgramOp>, p: Predicate)
    requires !(inp.context.ContractCall? && inp.context.fnName in Listed(ops))
    requires Op.Leaf(p) in ops
    ensures Unlisted(inp)(p) == LeafVerdict(inp, p)
  {
    if p.FnIn? && inp.context.ContractCall? {
      ListedMembers(ops, inp.context.fnName);
      var i :| 0 <= i < |ops| && ops[i] == Op.Leaf(p);
    }
  }

  /** The function set bounds what a program allows, whatever its ops, validated or not, as
      soon as the program cannot be satisfied without satisfying a function list. */
  lemma FunctionsBound(inp: EvalInputs, ops: seq<ProgramOp>)
    requires OpsVerdict(inp, ops) == True && PinnedBest(ops) != True
    ensures inp.context.ContractCall? && inp.context.fnName in Listed(ops)
  {
    hide LeafVerdict, OpsVerdict, Listed;
    var t := TreeOfVerdict(inp, ops);
    RunOfTree(Intervals(Pinned()), t);
    if !(inp.context.ContractCall? && inp.context.fnName in Listed(ops)) {
      var leaf := (q: Predicate) => LeafVerdict(inp, q);
      assert Verdicts(inp) == Kleene(leaf);
      forall p | Op.Leaf(p) in Postfix(t) ensures leaf(p) == Unlisted(inp)(p) { UnlistedAgrees(inp, ops, p); }
      FoldAgrees(leaf, Unlisted(inp), t);
      UnlistedWithin(inp);
      TreeWithin(Unlisted(inp), Pinned(), t);
    }
  }

  /** The condition is exact for the analysis: where it fails, some leaf verdicts within the
      pinned intervals, none of them satisfying a function list, make the root `True`. */
  lemma FunctionsUnbound(ops: seq<ProgramOp>) returns (qs: seq<Op<Verdict>>)
    requires PinnedBest(ops) == True
    ensures Assignment(Pinned(), qs, ops) && Run(OwnVerdicts(), qs, []) == Some([True])
  {
    var t := TreeOfRun(Intervals(Pinned()), ops);
    assert Inhabited(Pinned());
    qs := UpperBoundAttained(Pinned(), t);
  }

  predicate AllOnly(ops: seq<ProgramOp>) {
    forall i :: 0 <= i < |ops| ==> ops[i].All? || ops[i].Leaf?
  }

  /** Without `Any` and `Not`, the root can be `True` only if every leaf can. */
  lemma {:induction false} UpperNeedsEveryLeaf(bound: Predicate -> Interval, t: Tree<Predicate>, i: nat)
    requires WellFormed(t) && AllOnly(Postfix(t)) && Fold(Intervals(bound), t).hi == True
    requires i < |Postfix(t)| && Postfix(t)[i].Leaf?
    ensures bound(Postfix(t)[i].leaf).hi == True
    decreases t, 1
  {
    assert Postfix(t)[|PostfixAll(t.kids)|] == t.op;
    if t.op.All? {
      var ivs := FoldAll(Intervals(bound), t.kids);
      AllOfTrue(His(ivs));
      assert forall k :: 0 <= k < |t.kids| ==> His(ivs)[k] == Fold(Intervals(bound), t.kids[k]).hi;
      assert Postfix(t)[i] == PostfixAll(t.kids)[i];
      assert AllOnly(PostfixAll(t.kids)) by {
        assert forall k :: 0 <= k < |PostfixAll(t.kids)| ==> PostfixAll(t.kids)[k] == Postfix(t)[k];
      }
      UpperNeedsEveryLeafAll(bound, t.kids, i);
    }
  }

  lemma {:induction false} UpperNeedsEveryLeafAll(bound: Predicate -> Interval, ts: seq<Tree<Predicate>>, i: nat)
    requires AllWellFormed(ts) && AllOnly(PostfixAll(ts))
    requires forall k :: 0 <= k < |ts| ==> Fold(Intervals(bound), ts[k]).hi == True
    requires i < |PostfixAll(ts)| && PostfixAll(ts)[i].Leaf?
    ensures bound(PostfixAll(ts)[i].leaf).hi == True
    decreases ts, 0
  {
    hide Fold;
    var init, last := ts[..|ts|-1], ts[|ts|-1];
    var a, b := PostfixAll(init), Postfix(last);
    assert PostfixAll(ts) == a + b;
    assert AllOnly(a) by { assert forall k :: 0 <= k < |a| ==> a[k] == (a + b)[k]; }
    assert AllOnly(b) by { assert forall k :: 0 <= k < |b| ==> b[k] == (a + b)[|a| + k]; }
    if i < |a| { UpperNeedsEveryLeafAll(bound, init, i); } else { UpperNeedsEveryLeaf(bound, last, i - |a|); }
  }

  /** A program built from `All` alone that has a function list meets the condition. */
  lemma AllOnlyBounded(ops: seq<ProgramOp>)
    requires AllOnly(ops) && SawFnIn(ops)
    ensures PinnedBest(ops) != True
  {
    if PinnedBest(ops) == True {
      var t := TreeOfRun(Intervals(Pinned()), ops);
      var i :| 0 <= i < |ops| && IsFnIn(ops[i]);
      UpperNeedsEveryLeaf(Pinned(), t, i);
    }
  }

  /** With `Not` the function set is no bound: this accepted program lists only `f`, and
      allows every other function. */
  lemma NotEscapesFunctions(inp: EvalInputs, f: Symbol)
    requires inp.context.ContractCall? && inp.context.fnName != f
    ensures var p := RpnProgram(PROGRAM_VERSION, [Op.Leaf(FnIn([f])), Op.Not]);
            Accepted(p) && OpsVerdict(inp, p.ops) == True && Listed(p.ops) == [f]
  {
    hide Spells, OpsVerdict, TreeVerdict, Listed;
    var leaf := Op.Leaf(FnIn([f]));
    NegationSpells(leaf);
    assert Spells([leaf, Op.Not], Negation(leaf));
    VerdictOfTree(inp, [leaf, Op.Not], Negation(leaf));
    NegationVerdict(inp, leaf);
    FirstListed(f, Op.Not);
    assert [leaf] + [Op.Not] == [leaf, Op.Not];
  }

  lemma NegationVerdict(inp: EvalInputs, leaf: ProgramOp)
    requires leaf.Leaf?
    ensures TreeVerdict(inp, Negation(leaf)) == LeafVerdict(inp, leaf.leaf).Negate()
  {
    hide LeafVerdict;
    var g, kid := Verdicts(inp), Node(leaf, []);
    assert Fold(g, kid) == LeafVerdict(inp, leaf.leaf);
    var vs := FoldAll(g, Negation(leaf).kids);
    assert |vs| == 1 && vs[0] == Fold(g, kid);
  }

  lemma FirstListed(f: Symbol, next: ProgramOp)
    requires !IsFnIn(next)
    ensures Listed([Op.Leaf(FnIn([f]))]) == [f] && Listed([Op.Leaf(FnIn([f]))] + [next]) == [f]
  {
    var leaf: ProgramOp := Op.Leaf(FnIn([f]));
    assert Extend([], [f]) == [f] by { assert [f][..0] == []; }
    assert Listed([leaf]) == [f] by { assert [leaf][..0] == []; }
    assert ([leaf] + [next])[..1] == [leaf];
  }

  function Negation(leaf: ProgramOp): Tree<Predicate> {
    Node(Op.Not, [Node(leaf, [])])
  }

  lemma NegationSpells(leaf: ProgramOp)
    requires leaf.Leaf?
    ensures Spells([leaf, Op.Not], Negation(leaf))
  {
    var kid: Tree<Predicate> := Node(leaf, []);
    var kids := [kid];
    assert kids[..0] == [] && kids[0] == kid;
    assert Postfix(kid) == [leaf] && PostfixAll(kids) == [leaf];
    assert WellFormed(kid) && AllWellFormed(kids);
    assert PeakAll(kids[..0]) == 0 && Peak(kid) == 1 && PeakAll(kids) == 1;
  }

  /** A function list or one signer. */
  function EitherLeaves(f: Symbol): seq<Predicate> {
    [FnIn([f]), MinSigners(1)]
  }

  function EitherTree(f: Symbol): Tree<Predicate> {
    Node(Op.Any(2), LeafTrees(EitherLeaves(f)))
  }

  lemma EitherSpells(f: Symbol)
    ensures Spells(LeafOps(EitherLeaves(f)) + [Op.Any(2)], EitherTree(f))
  {
    var ts := LeafTrees(EitherLeaves(f));
    LeafPostfix(EitherLeaves(f));
    forall i | 0 <= i < |ts| ensures WellFormed(ts[i]) {
      assert ts[i].kids == [];
    }
    assert AllWellFormed(ts);
  }

  lemma EitherListed(f: Symbol)
    ensures Listed(LeafOps(EitherLeaves(f)) + [Op.Any(2)]) == [f]
  {
    var one, two: ProgramOp := Op.Leaf(FnIn([f])), Op.Leaf(MinSigners(1));
    FirstListed(f, two);
    assert LeafOps(EitherLeaves(f)) == [one] + [two];
    assert ([one] + [two] + [Op.Any(2)])[..2] == [one] + [two];
  }

  /** With `Any` it is no bound either: this accepted program lists only `f`, and allows
      every call that carries a signature. */
  lemma AnyEscapesFunctions(inp: EvalInputs, f: Symbol)
    requires inp.signerCount >= 1
    ensures var p := RpnProgram(PROGRAM_VERSION, LeafOps(EitherLeaves(f)) + [Op.Any(2)]);
            Accepted(p) && OpsVerdict(inp, p.ops) == True && Listed(p.ops) == [f]
  {
    hide Spells, OpsVerdict, Listed, LeafTrees;
    var ops, t := LeafOps(EitherLeaves(f)) + [Op.Any(2)], EitherTree(f);
    EitherSpells(f);
    VerdictOfTree(inp, ops, t);
    EitherVerdict(inp, f);
    EitherListed(f);
  }

  lemma EitherVerdict(inp: EvalInputs, f: Symbol)
    requires inp.signerCount >= 1
    ensures TreeVerdict(inp, EitherTree(f)) == True
  {
    var g, kids := Verdicts(inp), EitherTree(f).kids;
    LeafFold(inp, MinSigners(1));
    assert kids[1] == Node(Op.Leaf(MinSigners(1)), []);
    var vs := FoldAll(g, kids);
    assert |vs| == 2 && vs[1] == Fold(g, kids[1]) == True;
    AnyOfTrue(vs);
  }

  lemma LeafFold(inp: EvalInputs, p: Predicate)
    ensures Fold(Verdicts(inp), Node(Op.Leaf(p), [])) == LeafVerdict(inp, p)
  {
    hide LeafVerdict;
  }

  lemma AnyOfTrue(vs: seq<Verdict>)
    requires |vs| == 2 && vs[1] == True
    ensures AnyOf(vs) == True
  {
    assert vs[1..][0] == True;
  }

  /** The rule, as installed, lets the invocation through its policies. */
  predicate Authorizes(rule: LoweredRule, inp: EvalInputs) {
    rule.install.Some? ==> OpsVerdict(inp, rule.install.value.program.ops) == True
  }

  /** Soundness of the check: a call the child authorizes on a scope is in the function
      set of a parent rule on the same scope. */
  lemma NarrowingSound(parent: Plan, child: Plan, i: nat, inp: EvalInputs)
    requires IsNarrowing(parent, child) == None
    requires i < |child.rules| && inp.context.ContractCall? && Authorizes(child.rules[i], inp)
    requires child.rules[i].install.Some? && SawFnIn(child.rules[i].install.value.program.ops) ==>
               PinnedBest(child.rules[i].install.value.program.ops) != True
    ensures exists j :: 0 <= j < |parent.rules| && parent.rules[j].scope == child.rules[i].scope &&
                        RuleFunctions(parent.rules[j]).Has(inp.context.fnName)
  {
    hide OpsVerdict, PinnedBest;
    var rp, rc := ReachableCalls(parent), ReachableCalls(child);
    UncoveredIff(rp, rc);
    assert Covered(rp, rc[i]);
    var rule := child.rules[i];
    if rule.install.Some? && SawFnIn(rule.install.value.program.ops) {
      FunctionsBound(inp, rule.install.value.program.ops);
    }
    assert RuleFunctions(rule).Has(inp.context.fnName);
    var j :| 0 <= j < |rp| && rp[j].scope == rc[i].scope && FnCovers(rp[j].functions, rc[i].functions);
    assert RuleFunctions(parent.rules[j]).Has(inp.context.fnName);
  }

  lemma OnlyOneFnIn(rule: Rule, floor: u32, i: nat)
    requires Countable(rule) && i < |Leaves(rule, floor)|
    ensures Leaves(rule, floor)[i].FnIn? <==> i == 1 && rule.functions.Some?
    ensures Leaves(rule, floor)[i].FnIn? ==> Leaves(rule, floor)[i].fns == rule.functions.value
  {
    var ps, args := Leaves(rule, floor), ArgLeaves(ArgsOf(rule));
    var start := |ps| - |args|;
    assert forall j :: start <= j < |ps| ==> ps[j] == args[j - start];
  }

  /** A compiled program is built from `All` alone, and lists what its rule lists. */
  lemma ConjunctionFunctions(rule: Rule, floor: u32)
    requires Countable(rule)
    ensures var ops := Conjunction(Leaves(rule, floor)).ops;
            AllOnly(ops) && (SawFnIn(ops) <==> rule.functions.Some?) &&
            (rule.functions.Some? ==> forall f :: f in Listed(ops) <==> f in rule.functions.value)
  {
    hide Leaves, Listed;
    var ps := Leaves(rule, floor);
    LeavesCounted(rule, floor);
    var ops := Conjunction(ps).ops;
    forall i | 0 <= i < |ps|
      ensures ops[i] == Op.Leaf(ps[i]) && (IsFnIn(ops[i]) <==> i == 1 && rule.functions.Some?)
      ensures IsFnIn(ops[i]) ==> ops[i].leaf.fns == rule.functions.value
    {
      OnlyOneFnIn(rule, floor, i);
    }
    assert ops[|ps|] == Op.All(|ps|);
    if rule.functions.Some? {
      assert IsFnIn(ops[1]);
      forall f ensures f in Listed(ops) <==> f in rule.functions.value {
        ListedMembers(ops, f);
      }
    }
  }

  lemma LeavesCounted(rule: Rule, floor: u32)
    ensures |Leaves(rule, floor)| == LeafCount(rule)
  {
  }

  /** On compiled documents the side condition always holds. */
  lemma CompiledNarrowingSound(parent: PolicyDoc, child: PolicyDoc, hash: string, i: nat, inp: EvalInputs)
    requires AllLowerable(parent.rules) && AllLowerable(child.rules)
    requires CompileDoc(parent, hash).Ok? && CompileDoc(child, hash).Ok?
    requires IsNarrowing(CompileDoc(parent, hash).value, CompileDoc(child, hash).value) == None
    requires i < |child.rules| && i < |CompileDoc(child, hash).value.rules|
    requires inp.context.ContractCall? && Authorizes(CompileDoc(child, hash).value.rules[i], inp)
    ensures exists j :: 0 <= j < |CompileDoc(parent, hash).value.rules| &&
                        var p := CompileDoc(parent, hash).value.rules[j];
                        p.scope == child.rules[i].scope && RuleFunctions(p).Has(inp.context.fnName)
  {
    hide Authorizes, RuleFunctions;
    LowerRulesPointwise(child.signers, child.rules);
    if Attaches(child.rules[i]) && !child.rules[i].principals.SelfAuthenticating? {
      ConjunctionFunctions(child.rules[i], SignerFloor(child.rules[i]));
      var ops := Conjunction(Leaves(child.rules[i], SignerFloor(child.rules[i]))).ops;
      if SawFnIn(ops) { AllOnlyBounded(ops); }
    }
    NarrowingSound(CompileDoc(parent, hash).value, CompileDoc(child, hash).value, i, inp);
  }

  // ----- the sets are not only upper bounds -----

  /** Some argument satisfies the constraint: its position can exist, and a string list
      has a value that fits the comparison buffer. */
  predicate Satisfiable(c: ArgConstraint) {
    && c.index < U32_MAX
    && (c.pred.StringIn? ==>
          exists k :: 0 <= k < |c.pred.values| && |Utf8(c.pred.values[k])| <= MAX_STR_ARG_LEN)
  }

  /** An argument that meets the predicate, when one exists. */
  ghost function Meets(self: Address, pred: ArgPred): Val {
    match pred
    case IsSelf => AddressVal(self)
    case AddressEq(a) => AddressVal(a)
    case U32Eq(n) => U32Val(n)
    case StringPrefix(p) => StringVal(Utf8(p))
    case StringIn(values) =>
      if k :| 0 <= k < |values| && |Utf8(values[k])| <= MAX_STR_ARG_LEN then StringVal(Utf8(values[k])) else OtherVal
  }

  ghost function ValueAt(self: Address, args: seq<ArgConstraint>, k: nat): Val {
    if args == [] then OtherVal
    else if args[0].index == k then Meets(self, args[0].pred)
    else ValueAt(self, args[1..], k)
  }

  lemma {:induction false} ValueAtConstraint(self: Address, args: seq<ArgConstraint>, i: nat)
    requires i < |args|
    requires forall a, b :: 0 <= a < b < |args| ==> args[a].index != args[b].index
    ensures ValueAt(self, args, args[i].index) == Meets(self, args[i].pred)
  {
    hide Meets;
    if i > 0 { ValueAtConstraint(self, args[1..], i - 1); }
  }

  ghost function Witness(rule: Rule, f: Symbol): EvalInputs
    requires Countable(rule) && !rule.principals.SelfAuthenticating?
  {
    var vals := seq(U32_MAX, k requires 0 <= k < U32_MAX => ValueAt("", ArgsOf(rule), k));
    EvalInputs(ContractCall(f, vals), Max(1, SignerFloor(rule)), "", 0)
  }

  lemma MeetsHolds(inp: EvalInputs, c: ArgConstraint)
    requires Validate.ValidPred(c.pred) && Satisfiable(c)
    requires Arg(inp, c.index) == Some(Meets(inp.selfAddr, c.pred))
    ensures ArgHolds(inp, c)
  {
  }

  lemma HoldsSatisfiable(inp: EvalInputs, c: ArgConstraint)
    requires ArgHolds(inp, c)
    ensures Satisfiable(c)
  {
  }

  /** Exactness: for a valid function-restricted rule, a listed function can be authorized
      exactly when each argument constraint can be met on its own. */
  lemma ListedIsReachable(rule: Rule, declared: set<string>, f: Symbol)
    requires Countable(rule) && !rule.principals.SelfAuthenticating? && LeafCount(rule) <= MAX_STACK_DEPTH
    requires Validate.ValidRule(rule, declared)
    requires rule.functions.Some? && f in rule.functions.value
    ensures (exists inp: EvalInputs ::
               inp.context.ContractCall? && inp.context.fnName == f &&
               OpsVerdict(inp, ProgramOf(rule, SignerFloor(rule)).value.ops) == True)
            <==> forall i :: 0 <= i < |ArgsOf(rule)| ==> Satisfiable(ArgsOf(rule)[i])
  {
    hide OpsVerdict, ArgHolds, Satisfiable;
    var args, ops := ArgsOf(rule), ProgramOf(rule, SignerFloor(rule)).value.ops;
    if inp: EvalInputs :| inp.context.ContractCall? && inp.context.fnName == f && OpsVerdict(inp, ops) == True {
      ProgramMeaning(inp, rule);
      forall i | 0 <= i < |args| ensures Satisfiable(args[i]) {
        assert ArgHolds(inp, args[i]);
        HoldsSatisfiable(inp, args[i]);
      }
    }
    if forall i :: 0 <= i < |args| ==> Satisfiable(args[i]) {
      var inp := Witness(rule, f);
      forall i | 0 <= i < |args| ensures ArgHolds(inp, args[i]) {
        WitnessHolds(rule, declared, f, i);
      }
      ProgramMeaning(inp, rule);
      assert OpsVerdict(inp, ops) == True;
    }
  }

  lemma WitnessHolds(rule: Rule, declared: set<string>, f: Symbol, i: nat)
    requires Countable(rule) && !rule.principals.SelfAuthenticating?
    requires Validate.ValidRule(rule, declared)
    requires i < |ArgsOf(rule)| && Satisfiable(ArgsOf(rule)[i])
    ensures ArgHolds(Witness(rule, f), ArgsOf(rule)[i])
  {
    hide Meets, ArgHolds, Validate.ValidPred;
    var args := ArgsOf(rule);
    ValueAtConstraint("", args, i);
    MeetsHolds(Witness(rule, f), args[i]);
  }
}
