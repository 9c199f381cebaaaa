/** Static analysis of programs: worst-case stack depth and the interval abstract
    interpreter (crates/perch-compile/src/analysis.rs). */
module Analysis {
  import opened Base
  import opened StackMachine
  import opened Program

  // ----- bounds -----

  datatype ProgramBounds = ProgramBounds(ops: nat, maxStackDepth: nat)

  function SaturatingStep(depth: nat, pops: nat): nat {
    var d := if depth < pops then 0 else depth - pops;
    if d >= U32_MAX then U32_MAX else d + 1
  }

  /** After `i` ops the counters describe the tree machine's stack `st`; `None` is a run
      that has already underflowed. */
  ghost predicate Tracks(ops: seq<ProgramOp>, i: nat, st: Option<seq<Tree<Predicate>>>, depth: nat, maxDepth: nat) {
    i <= |ops| &&
    match st
    case None => Run(TreeAlgebra(), ops, []).None? && StackPeak(ops, 0) <= maxDepth
    case Some(trees) =>
      && depth == |trees| <= maxDepth
      && Run(TreeAlgebra(), ops, []) == Run(TreeAlgebra(), ops[i..], trees)
      && StackPeak(ops, 0) == Max(maxDepth, StackPeak(ops[i..], depth))
  }

  function StepTrees(op: ProgramOp, st: Option<seq<Tree<Predicate>>>): Option<seq<Tree<Predicate>>> {
    if st.Some? then Step(TreeAlgebra(), op, st.value) else None
  }

  lemma TracksStep(ops: seq<ProgramOp>, i: nat, st: Option<seq<Tree<Predicate>>>, depth: nat, maxDepth: nat)
    requires Tracks(ops, i, st, depth, maxDepth) && depth <= i < |ops| <= U32_MAX
    ensures var d := SaturatingStep(depth, Pops(ops[i]));
            Tracks(ops, i + 1, StepTrees(ops[i], st), d, Max(maxDepth, d))
  {
    hide Run, StackPeak, Step;
    if st.Some? {
      RunFrom(TreeAlgebra(), ops, i, st.value);
      PeakFrom(ops, i, depth);
      StepSize(TreeAlgebra(), ops[i], st.value);
    }
  }

  lemma RunFrom<L, V>(g: Algebra<L, V>, ops: seq<Op<L>>, i: nat, st: seq<V>)
    requires i < |ops|
    ensures Run(g, ops[i..], st) ==
            match Step(g, ops[i], st) case None => None case Some(st') => Run(g, ops[i+1..], st')
  {
    hide Step;
    assert ops[i..][0] == ops[i] && ops[i..][1..] == ops[i+1..];
  }

  lemma PeakFrom<L>(ops: seq<Op<L>>, i: nat, depth: nat)
    requires i < |ops|
    ensures StackPeak(ops[i..], depth) ==
            if ZeroArity(ops[i]) || depth < Pops(ops[i]) then depth
            else Max(depth, StackPeak(ops[i+1..], depth - Pops(ops[i]) + 1))
  {
    assert ops[i..][0] == ops[i] && ops[i..][1..] == ops[i+1..];
  }

  lemma StepSize<L, V>(g: Algebra<L, V>, op: Op<L>, st: seq<V>)
    ensures Step(g, op, st).None? <==> ZeroArity(op) || |st| < Pops(op)
    ensures Step(g, op, st).Some? ==> |Step(g, op, st).value| == |st| - Pops(op) + 1
  {
  }

  lemma TracksEnd(ops: seq<ProgramOp>, st: Option<seq<Tree<Predicate>>>, depth: nat, maxDepth: nat)
    requires Tracks(ops, |ops|, st, depth, maxDepth) && Run(TreeAlgebra(), ops, []).Some?
    ensures StackPeak(ops, 0) == maxDepth
  {
    hide Run;
    assert ops[|ops|..] == [];
  }

  lemma PeakCovered(ops: seq<ProgramOp>, st: Option<seq<Tree<Predicate>>>, depth: nat, maxDepth: nat)
    requires Tracks(ops, |ops|, st, depth, maxDepth)
    ensures StackPeak(ops, 0) <= maxDepth
  {
    hide Run;
    assert ops[|ops|..] == [];
  }

  /** On every program that spells a tree (validated or not), the reported depth is the
      machine's largest stack size and the number of slots the tree needs. On every other one
      it covers what the machine holds before it stops, and is positive. */
  method ComputeBounds(p: RpnProgram) returns (b: ProgramBounds)
    requires |p.ops| <= U32_MAX
    ensures b.ops == |p.ops|
    ensures forall t :: WellFormed(t) && Postfix(t) == p.ops ==>
              b.maxStackDepth == Peak(t) == StackPeak(p.ops, 0)
    ensures StackPeak(p.ops, 0) <= b.maxStackDepth && (p.ops != [] ==> 1 <= b.maxStackDepth)
  {
    var depth: nat, maxDepth: nat := 0, 0;
    ghost var st: Option<seq<Tree<Predicate>>> := Some([]);
    assert Tracks(p.ops, 0, st, 0, 0) by { assert p.ops[0..] == p.ops; }
    hide Tracks, StepTrees, Run, StackPeak, Fold, Postfix, WellFormed, Peak;
    for i := 0 to |p.ops|
      invariant depth <= i && Tracks(p.ops, i, st, depth, maxDepth) && (i > 0 ==> 1 <= maxDepth)
    {
      TracksStep(p.ops, i, st, depth, maxDepth);
      st := StepTrees(p.ops[i], st);
      depth := SaturatingStep(depth, Pops(p.ops[i]));
      maxDepth := Max(maxDepth, depth);
    }
    forall t | WellFormed(t) && Postfix(t) == p.ops
      ensures maxDepth == Peak(t) == StackPeak(p.ops, 0)
    {
      RunOfTree(TreeAlgebra(), t);
      PeakOfTree(t);
      TracksEnd(p.ops, st, depth, maxDepth);
    }
    PeakCovered(p.ops, st, depth, maxDepth);
    return ProgramBounds(|p.ops|, maxDepth);
  }

  /** `StackPeak` is the maximum over all prefixes of the stack size of an actual run. */
  lemma {:induction false} PeakIsMaximum<L, V>(g: Algebra<L, V>, ops: seq<Op<L>>, st: seq<V>) returns (k: nat)
    requires Run(g, ops, st).Some?
    ensures k <= |ops| && Run(g, ops[..k], st).Some? && |Run(g, ops[..k], st).value| == StackPeak(ops, |st|)
    ensures forall j :: 0 <= j <= |ops| ==>
              Run(g, ops[..j], st).Some? && |Run(g, ops[..j], st).value| <= StackPeak(ops, |st|)
  {
    k := 0;
    if ops != [] {
      var st' := Step(g, ops[0], st).value;
      var k' := PeakIsMaximum(g, ops[1..], st');
      forall j | 1 <= j <= |ops| ensures Run(g, ops[..j], st) == Run(g, ops[1..][..j-1], st') {
        assert ops[..j][1..] == ops[1..][..j-1];
      }
      if |st| < StackPeak(ops, |st|) { k := k' + 1; }
    }
  }

  // ----- intervals -----

  /** The verdicts a value may take: everything from `lo` up to `hi`. */
  datatype Interval = Interval(lo: Verdict, hi: Verdict) {
    predicate Contains(v: Verdict) { lo.Leq(v) && v.Leq(hi) }
  }

  function Los(ivs: seq<Interval>): (vs: seq<Verdict>)
    ensures |vs| == |ivs|
  {
    seq(|ivs|, i requires 0 <= i < |ivs| => ivs[i].lo)
  }

  function His(ivs: seq<Interval>): (vs: seq<Verdict>)
    ensures |vs| == |ivs|
  {
    seq(|ivs|, i requires 0 <= i < |ivs| => ivs[i].hi)
  }

  lemma BoundsTail(ivs: seq<Interval>)
    requires ivs != []
    ensures Los(ivs)[0] == ivs[0].lo && Los(ivs)[1..] == Los(ivs[1..])
    ensures His(ivs)[0] == ivs[0].hi && His(ivs)[1..] == His(ivs[1..])
  {
  }

  function Intervals<L>(leaf: L -> Interval): Algebra<L, Interval> {
    (op: Op<L>, ivs: seq<Interval>) =>
      match op
      case All(_) => Interval(AllOf(Los(ivs)), AllOf(His(ivs)))
      case Any(_) => Interval(AnyOf(Los(ivs)), AnyOf(His(ivs)))
      case Not => if |ivs| == 1 then Interval(ivs[0].hi.Negate(), ivs[0].lo.Negate()) else Interval(Unknown, Unknown)
      case Leaf(l) => leaf(l)
  }

  function LeafInterval(p: Predicate): Interval {
    match p
    case MinSigners(0) => Interval(True, True)
    case LedgerBefore(0) => Interval(False, False)
    case _ => Interval(False, True)
  }

  function OwnIntervals(): Predicate -> Interval {
    (p: Predicate) => LeafInterval(p)
  }

  function ProgramIntervals(): Algebra<Predicate, Interval> {
    Intervals(OwnIntervals())
  }

  /** The root's upper bound under the given leaf intervals; a malformed program folds to
      `Unknown`. */
  function Upper(bound: Predicate -> Interval, ops: seq<ProgramOp>): Verdict {
    match Run(Intervals(bound), ops, [])
    case Some(st) => if |st| == 1 then st[0].hi else Unknown
    case None => Unknown
  }

  /** Best-case root verdict. */
  function BestVerdict(ops: seq<ProgramOp>): Verdict {
    Upper(OwnIntervals(), ops)
  }

  predicate CanEverAuthorize(p: RpnProgram) {
    BestVerdict(p.ops) == True
  }

  /** The interval loop over a growable stack computes `BestVerdict`. */
  method MaxVerdict(p: RpnProgram) returns (v: Verdict)
    ensures v == BestVerdict(p.ops)
  {
    ghost var g := ProgramIntervals();
    var stack: seq<Interval> := [];
    assert p.ops[0..] == p.ops;
    for i := 0 to |p.ops|
      invariant Run(g, p.ops, []) == Run(g, p.ops[i..], stack)
    {
      assert p.ops[i..][0] == p.ops[i] && p.ops[i..][1..] == p.ops[i+1..];
      var next := IntervalStep(stack, p.ops[i]);
      if next.None? { return Unknown; }
      stack := next.value;
    }
    return if |stack| == 1 then stack[0].hi else Unknown;
  }

  /** One op of the interval loop. */
  method IntervalStep(stack: seq<Interval>, op: ProgramOp) returns (next: Option<seq<Interval>>)
    ensures next == Step(ProgramIntervals(), op, stack)
  {
    match op
    case All(n) =>
      if n == 0 || |stack| < n { return None; }
      var lo, hi := FoldTop(stack, n, true);
      return Some(stack[..|stack|-n] + [Interval(lo, hi)]);
    case Any(n) =>
      if n == 0 || |stack| < n { return None; }
      var lo, hi := FoldTop(stack, n, false);
      return Some(stack[..|stack|-n] + [Interval(lo, hi)]);
    case Not =>
      if |stack| == 0 { return None; }
      var top := stack[|stack|-1];
      assert stack[|stack|-1..] == [top];
      return Some(stack[..|stack|-1] + [Interval(top.hi.Negate(), top.lo.Negate())]);
    case Leaf(pred) =>
      assert stack[..|stack|] == stack;
      return Some(stack + [LeafInterval(pred)]);
  }

  /** Min (or max) the bounds of the top `n` entries, popping from the end. */
  method FoldTop(stack: seq<Interval>, n: nat, conj: bool) returns (lo: Verdict, hi: Verdict)
    requires n <= |stack|
    ensures var top := stack[|stack|-n..];
            if conj then lo == AllOf(Los(top)) && hi == AllOf(His(top))
            else lo == AnyOf(Los(top)) && hi == AnyOf(His(top))
  {
    hide Los, His;
    lo, hi := if conj then True else False, if conj then True else False;
    assert Los([]) == [] && His([]) == [];
    assert stack[|stack|..] == [];
    var k := |stack|;
    while k > |stack| - n
      invariant |stack| - n <= k <= |stack|
      invariant var top := stack[k..];
                if conj then lo == AllOf(Los(top)) && hi == AllOf(His(top))
                else lo == AnyOf(Los(top)) && hi == AnyOf(His(top))
    {
      k := k - 1;
      BoundsTail(stack[k..]);
      assert stack[k..][1..] == stack[k+1..];
      if conj {
        lo, hi := lo.And(stack[k].lo), hi.And(stack[k].hi);
      } else {
        lo, hi := lo.Or(stack[k].lo), hi.Or(stack[k].hi);
      }
    }
  }

  // ----- soundness -----

  ghost predicate AllWithin(vs: seq<Verdict>, ivs: seq<Interval>) {
    |vs| == |ivs| && forall i :: 0 <= i < |vs| ==> ivs[i].Contains(vs[i])
  }

  lemma {:induction false} FoldsWithin(vs: seq<Verdict>, ivs: seq<Interval>)
    requires AllWithin(vs, ivs)
    ensures Interval(AllOf(Los(ivs)), AllOf(His(ivs))).Contains(AllOf(vs))
    ensures Interval(AnyOf(Los(ivs)), AnyOf(His(ivs))).Contains(AnyOf(vs))
  {
    if vs != [] {
      FoldsWithin(vs[1..], ivs[1..]);
      BoundsTail(ivs);
    }
  }

  lemma {:induction false} TreeWithin<L(!new)>(leaf: L -> Verdict, bound: L -> Interval, t: Tree<L>)
    requires forall l :: bound(l).Contains(leaf(l))
    requires WellFormed(t)
    ensures Fold(Intervals(bound), t).Contains(Fold(Kleene(leaf), t))
    decreases t
  {
    var vs, ivs := FoldAll(Kleene(leaf), t.kids), FoldAll(Intervals(bound), t.kids);
    forall i | 0 <= i < |t.kids| ensures ivs[i].Contains(vs[i]) {
      TreeWithin(leaf, bound, t.kids[i]);
    }
    FoldsWithin(vs, ivs);
    match t.op
    case Leaf(l) => assert bound(l).Contains(leaf(l));
    case Not =>
      var v, iv := vs[0], ivs[0];
      assert iv.Contains(v);
      assert Fold(Kleene(leaf), t) == v.Negate();
      assert Fold(Intervals(bound), t) == Interval(iv.hi.Negate(), iv.lo.Negate());
    case _ =>
  }

  /** A leaf never leaves its interval. */
  lemma LeafWithin(inp: EvalInputs)
    ensures forall p :: LeafInterval(p).Contains(LeafVerdict(inp, p))
  {
  }

  /** The two leaves the analysis knows to be constant are: their interval is one point,
      the verdict on every input. */
  lemma ConstantLeaves(inp: EvalInputs)
    ensures var v := LeafVerdict(inp, MinSigners(0)); LeafInterval(MinSigners(0)) == Interval(v, v)
    ensures var v := LeafVerdict(inp, LedgerBefore(0)); LeafInterval(LedgerBefore(0)) == Interval(v, v)
  {
  }

  /** An invocation's verdict lies in the interval the analysis computes. */
  lemma VerdictWithin(inp: EvalInputs, t: Tree<Predicate>)
    requires WellFormed(t)
    ensures Fold(ProgramIntervals(), t).Contains(TreeVerdict(inp, t))
  {
    var leaf := (q: Predicate) => LeafVerdict(inp, q);
    assert Verdicts(inp) == Kleene(leaf);
    LeafWithin(inp);
    TreeWithin(leaf, OwnIntervals(), t);
  }

  /** An op sequence with a definite verdict has a tree, and the verdict is the tree's. */
  lemma TreeOfVerdict(inp: EvalInputs, ops: seq<ProgramOp>) returns (t: Tree<Predicate>)
    requires OpsVerdict(inp, ops) != Unknown
    ensures WellFormed(t) && Postfix(t) == ops && OpsVerdict(inp, ops) == TreeVerdict(inp, t)
  {
    CappedRun(Verdicts(inp), MAX_STACK_DEPTH, ops, []);
    t := TreeOfRun(Verdicts(inp), ops);
  }

  /** Soundness for every op sequence, malformed ones included: if any input makes the
      program authorize, the analysis says it can. */
  lemma AuthorizeIsPredicted(p: RpnProgram, inp: EvalInputs)
    requires OpsVerdict(inp, p.ops) == True
    ensures CanEverAuthorize(p)
  {
    var t := TreeOfVerdict(inp, p.ops);
    RunOfTree(ProgramIntervals(), t);
    VerdictWithin(inp, t);
  }

  // ----- exactness -----

  type LeafBounds = Predicate -> Interval

  /** `q` has the composites of `op`; at a leaf it holds a verdict of the leaf's interval. */
  predicate Labels(bound: LeafBounds, q: Op<Verdict>, op: ProgramOp) {
    match op
    case All(n) => q == Op.All(n)
    case Any(n) => q == Op.Any(n)
    case Not => q == Op.Not
    case Leaf(p) => q.Leaf? && bound(p).Contains(q.leaf)
  }

  /** An assignment of verdicts to the leaf occurrences of `ops`, within their intervals. */
  ghost predicate Assignment(bound: LeafBounds, qs: seq<Op<Verdict>>, ops: seq<ProgramOp>) {
    |qs| == |ops| && forall i :: 0 <= i < |ops| ==> Labels(bound, qs[i], ops[i])
  }

  /** No leaf's interval is empty. */
  ghost predicate Inhabited(bound: LeafBounds) {
    forall p :: bound(p).lo.Leq(bound(p).hi)
  }

  function OwnVerdicts(): Algebra<Verdict, Verdict> {
    Kleene((v: Verdict) => v)
  }

  function Bound(i: Interval, high: bool): Verdict {
    if high then i.hi else i.lo
  }

  /** The assignment that drives the root as high (or as low) as it goes. */
  function Extreme(bound: LeafBounds, t: Tree<Predicate>, high: bool): Tree<Verdict>
    decreases t, 1
  {
    match t.op
    case Leaf(p) => Node(Op.Leaf(Bound(bound(p), high)), [])
    case Not => Node(Op.Not, ExtremeAll(bound, t.kids, !high))
    case All(n) => Node(Op.All(n), ExtremeAll(bound, t.kids, high))
    case Any(n) => Node(Op.Any(n), ExtremeAll(bound, t.kids, high))
  }

  function ExtremeAll(bound: LeafBounds, ts: seq<Tree<Predicate>>, high: bool): (us: seq<Tree<Verdict>>)
    ensures |us| == |ts|
    decreases ts, 0
  {
    seq(|ts|, i requires 0 <= i < |ts| => Extreme(bound, ts[i], high))
  }

  lemma {:induction false} ExtremeAttains(bound: LeafBounds, t: Tree<Predicate>, high: bool)
    requires WellFormed(t)
    ensures WellFormed(Extreme(bound, t, high))
    ensures Fold(OwnVerdicts(), Extreme(bound, t, high)) == Bound(Fold(Intervals(bound), t), high)
    decreases t
  {
    var side := if t.op.Not? then !high else high;
    var us := ExtremeAll(bound, t.kids, side);
    var ivs := FoldAll(Intervals(bound), t.kids);
    forall i | 0 <= i < |t.kids|
      ensures WellFormed(us[i]) && FoldAll(OwnVerdicts(), us)[i] == Bound(ivs[i], side)
    {
      ExtremeAttains(bound, t.kids[i], side);
    }
    var vs := FoldAll(OwnVerdicts(), us);
    assert vs == if side then His(ivs) else Los(ivs);
  }

  lemma {:induction false} ExtremeLabels(bound: LeafBounds, t: Tree<Predicate>, high: bool)
    requires WellFormed(t) && Inhabited(bound)
    ensures Assignment(bound, Postfix(Extreme(bound, t, high)), Postfix(t))
    decreases t, 1
  {
    ExtremeAllLabels(bound, t.kids, if t.op.Not? then !high else high);
  }

  lemma EmptyAssignment(bound: LeafBounds)
    ensures Assignment(bound, [], [])
  {
  }

  lemma AssignmentConcat(bound: LeafBounds, q: seq<Op<Verdict>>, x: seq<ProgramOp>, r: seq<Op<Verdict>>,
                         y: seq<ProgramOp>)
    requires Assignment(bound, q, x) && Assignment(bound, r, y)
    ensures Assignment(bound, q + r, x + y)
  {
    hide Labels;
  }

  lemma {:induction false} ExtremeAllLabels(bound: LeafBounds, ts: seq<Tree<Predicate>>, high: bool)
    requires AllWellFormed(ts) && Inhabited(bound)
    ensures Assignment(bound, PostfixAll(ExtremeAll(bound, ts, high)), PostfixAll(ts))
    decreases ts, 0
  {
    hide Assignment, Extreme, Inhabited;
    assert Assignment(bound, [], []) by { EmptyAssignment(bound); }
    if ts != [] {
      var n := |ts| - 1;
      ExtremeAllLabels(bound, ts[..n], high);
      ExtremeLabels(bound, ts[n], high);
      assert ExtremeAll(bound, ts, high)[..n] == ExtremeAll(bound, ts[..n], high);
      AssignmentConcat(bound, PostfixAll(ExtremeAll(bound, ts[..n], high)), PostfixAll(ts[..n]),
                       Postfix(Extreme(bound, ts[n], high)), Postfix(ts[n]));
    }
  }

  /** For any leaf intervals, some assignment within them makes the machine's root verdict
      the upper bound computed from them. */
  lemma UpperBoundAttained(bound: LeafBounds, t: Tree<Predicate>) returns (qs: seq<Op<Verdict>>)
    requires WellFormed(t) && Inhabited(bound)
    ensures Assignment(bound, qs, Postfix(t))
    ensures Run(OwnVerdicts(), qs, []) == Some([Upper(bound, Postfix(t))])
  {
    qs := Postfix(Extreme(bound, t, true));
    ExtremeAttains(bound, t, true);
    ExtremeLabels(bound, t, true);
    RunOfTree(Intervals(bound), t);
    RunOfTree(OwnVerdicts(), Extreme(bound, t, true));
  }

  /** Exactness: on every accepted program some assignment of leaf verdicts within the
      leaf intervals makes the machine's root verdict the computed upper bound. */
  lemma BestVerdictAttained(p: RpnProgram) returns (qs: seq<Op<Verdict>>)
    requires Accepted(p)
    ensures Assignment(OwnIntervals(), qs, p.ops)
    ensures Run(OwnVerdicts(), qs, []) == Some([BestVerdict(p.ops)])
  {
    var t :| Spells(p.ops, t);
    qs := UpperBoundAttained(OwnIntervals(), t);
  }
}
