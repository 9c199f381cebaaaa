/** The postfix stack machine, generic in what it computes.

    Every reading of a program in this project (its verdict, its interval of
    verdicts, its stack depth, its expression tree) is the same machine run with a
    different algebra. The tree algebra is the free one: running it parses the
    program, and every other run is a fold of that parse. */
module StackMachine {
  import opened Base

  /** One postfix op; `L` is the type of leaf predicates. */
  datatype Op<L> = All(n: u32) | Any(n: u32) | Not | Leaf(leaf: L)

  /** Expression trees: a node's op and its operands, in push order. */
  datatype Tree<L> = Node(op: Op<L>, kids: seq<Tree<L>>)

  type Algebra<!L, !V> = (Op<L>, seq<V>) -> V

  function Pops<L>(op: Op<L>): nat {
    match op
    case All(n) => n
    case Any(n) => n
    case Not => 1
    case Leaf(_) => 0
  }

  predicate ZeroArity<L>(op: Op<L>) {
    (op.All? || op.Any?) && op.n == 0
  }

  function Step<L, V>(g: Algebra<L, V>, op: Op<L>, st: seq<V>): Option<seq<V>> {
    if ZeroArity(op) || |st| < Pops(op) then None
    else
      var k := |st| - Pops(op);
      Some(st[..k] + [g(op, st[k..])])
  }

  /** Run to the end; `None` is underflow or a zero-arity composite. */
  function Run<L, V>(g: Algebra<L, V>, ops: seq<Op<L>>, st: seq<V>): Option<seq<V>> {
    if ops == [] then Some(st)
    else
      var st' :- Step(g, ops[0], st);
      Run(g, ops[1..], st')
  }

  /** `Run` that also gives up when the stack would hold more than `cap` values. */
  function RunCapped<L, V>(g: Algebra<L, V>, cap: nat, ops: seq<Op<L>>, st: seq<V>): Option<seq<V>> {
    if ops == [] then Some(st)
    else
      var st' :- Step(g, ops[0], st);
      if |st'| > cap then None else RunCapped(g, cap, ops[1..], st')
  }

  /** Largest stack size from `depth` on, as long as no op underflows. */
  function StackPeak<L>(ops: seq<Op<L>>, depth: nat): (peak: nat)
    ensures peak >= depth
  {
    if ops == [] || ZeroArity(ops[0]) || depth < Pops(ops[0]) then depth
    else Max(depth, StackPeak(ops[1..], depth - Pops(ops[0]) + 1))
  }

  // ----- trees -----

  predicate WellFormed<L>(t: Tree<L>) {
    !ZeroArity(t.op) && |t.kids| == Pops(t.op) && AllWellFormed(t.kids)
  }

  predicate AllWellFormed<L>(ts: seq<Tree<L>>) {
    forall i :: 0 <= i < |ts| ==> WellFormed(ts[i])
  }

  function Postfix<L>(t: Tree<L>): seq<Op<L>>
    decreases t, 1
  {
    PostfixAll(t.kids) + [t.op]
  }

  function PostfixAll<L>(ts: seq<Tree<L>>): seq<Op<L>>
    decreases ts, 0
  {
    if ts == [] then [] else PostfixAll(ts[..|ts|-1]) + Postfix(ts[|ts|-1])
  }

  function Fold<L, V>(g: Algebra<L, V>, t: Tree<L>): V
    decreases t, 1
  {
    g(t.op, FoldAll(g, t.kids))
  }

  function FoldAll<L, V>(g: Algebra<L, V>, ts: seq<Tree<L>>): (vs: seq<V>)
    ensures |vs| == |ts|
    decreases ts, 0
  {
    seq(|ts|, i requires 0 <= i < |ts| => Fold(g, ts[i]))
  }

  /** Stack slots evaluating `t` needs. */
  function Peak<L>(t: Tree<L>): (p: nat)
    ensures p >= 1
    decreases t, 1
  {
    Max(1, PeakAll(t.kids))
  }

  function PeakAll<L>(ts: seq<Tree<L>>): (p: nat)
    ensures p >= |ts|
    decreases ts, 0
  {
    if ts == [] then 0
    else Max(PeakAll(ts[..|ts|-1]), |ts| - 1 + Peak(ts[|ts|-1]))
  }

  function TreeAlgebra<L>(): Algebra<L, Tree<L>> {
    (op, ts) => Node(op, ts)
  }

  // ----- the parse is a bijection -----

  lemma {:induction false} PostfixAllAppend<L>(a: seq<Tree<L>>, b: seq<Tree<L>>)
    ensures PostfixAll(a + b) == PostfixAll(a) + PostfixAll(b)
  {
    if b == [] {
      assert a + b == a;
    } else {
      hide PostfixAll, Postfix;
      var b', t := b[..|b|-1], b[|b|-1];
      assert b == b' + [t];
      ConcatAssociative(a, b', [t]);
      PostfixAllAppend(a, b');
      PostfixAllSnoc(a + b', t);
      PostfixAllSnoc(b', t);
      ConcatAssociative(PostfixAll(a), PostfixAll(b'), Postfix(t));
    }
  }

  lemma PostfixAllSnoc<L>(ts: seq<Tree<L>>, t: Tree<L>)
    ensures PostfixAll(ts + [t]) == PostfixAll(ts) + Postfix(t)
  {
    assert (ts + [t])[..|ts|] == ts;
  }

  /** Running a tree's postfix form pushes exactly that tree. */
  lemma {:induction false} RunPostfix<L>(t: Tree<L>, rest: seq<Op<L>>, st: seq<Tree<L>>)
    requires WellFormed(t)
    ensures Run(TreeAlgebra(), Postfix(t) + rest, st) == Run(TreeAlgebra(), rest, st + [t])
    decreases t, 1
  {
    assert Postfix(t) + rest == PostfixAll(t.kids) + ([t.op] + rest);
    RunPostfixAll(t.kids, [t.op] + rest, st);
    var full := st + t.kids;
    assert ([t.op] + rest)[1..] == rest;
    assert full[..|st|] == st && full[|st|..] == t.kids;
  }

  lemma {:induction false} RunPostfixAll<L>(ts: seq<Tree<L>>, rest: seq<Op<L>>, st: seq<Tree<L>>)
    requires AllWellFormed(ts)
    ensures Run(TreeAlgebra(), PostfixAll(ts) + rest, st) == Run(TreeAlgebra(), rest, st + ts)
    decreases ts, 0
  {
    if ts == [] {
      assert PostfixAll(ts) + rest == rest && st + ts == st;
    } else {
      var ts', t := ts[..|ts|-1], ts[|ts|-1];
      assert PostfixAll(ts) + rest == PostfixAll(ts') + (Postfix(t) + rest);
      RunPostfixAll(ts', Postfix(t) + rest, st);
      RunPostfix(t, rest, st + ts');
      assert st + ts' + [t] == st + ts;
    }
  }

  /** Folding the top operands into a node does not change what the stack spells. */
  lemma PostfixStep<L>(op: Op<L>, st: seq<Tree<L>>, k: nat)
    requires k <= |st|
    ensures PostfixAll(st[..k] + [Node(op, st[k..])]) == PostfixAll(st) + [op]
  {
    hide Postfix, PostfixAll;
    var below, t := st[..k], Node(op, st[k..]);
    PostfixAllSnoc(below, t);
    PostfixNode(t);
    PostfixAllAppend(below, t.kids);
    assert below + t.kids == st;
    ConcatAssociative(PostfixAll(below), PostfixAll(t.kids), [op]);
  }

  lemma PostfixNode<L>(t: Tree<L>)
    ensures Postfix(t) == PostfixAll(t.kids) + [t.op]
  {
  }

  lemma StepSpells<L>(op: Op<L>, st: seq<Tree<L>>)
    requires AllWellFormed(st) && Step(TreeAlgebra(), op, st).Some?
    ensures AllWellFormed(Step(TreeAlgebra(), op, st).value)
    ensures PostfixAll(Step(TreeAlgebra(), op, st).value) == PostfixAll(st) + [op]
  {
    PostfixStep(op, st, |st| - Pops(op));
  }

  /** Whatever the tree machine leaves on the stack spells the ops it consumed. */
  lemma {:induction false} PostfixRun<L>(ops: seq<Op<L>>, st: seq<Tree<L>>)
    requires AllWellFormed(st)
    requires Run(TreeAlgebra(), ops, st).Some?
    ensures AllWellFormed(Run(TreeAlgebra(), ops, st).value)
    ensures PostfixAll(Run(TreeAlgebra(), ops, st).value) == PostfixAll(st) + ops
  {
    hide PostfixAll, WellFormed, Step;
    if ops == [] {
      assert PostfixAll(st) + ops == PostfixAll(st);
    } else {
      var st' := Step(TreeAlgebra(), ops[0], st).value;
      StepSpells(ops[0], st);
      PostfixRun(ops[1..], st');
      assert PostfixAll(st) + [ops[0]] + ops[1..] == PostfixAll(st) + ops;
    }
  }

  /** A program has at most one expression tree. */
  lemma ParseUnique<L>(t: Tree<L>, u: Tree<L>)
    requires WellFormed(t) && WellFormed(u)
    requires Postfix(t) == Postfix(u)
    ensures t == u
  {
    RunPostfix(t, [], []);
    RunPostfix(u, [], []);
    assert Postfix(t) + [] == Postfix(t) && Postfix(u) + [] == Postfix(u);
    assert [] + [t] == [t] && [] + [u] == [u];
    assert [t] == [u];
  }

  /** A run that ends with one value has an expression tree. */
  lemma ParseExists<L>(ops: seq<Op<L>>) returns (t: Tree<L>)
    requires Run(TreeAlgebra(), ops, []).Some? && |Run(TreeAlgebra(), ops, []).value| == 1
    ensures WellFormed(t) && Postfix(t) == ops
    ensures Run(TreeAlgebra(), ops, []) == Some([t])
  {
    PostfixRun(ops, []);
    assert PostfixAll<L>([]) + ops == ops;
    var f := Run(TreeAlgebra(), ops, []).value;
    t := f[0];
    assert f == [t] && f[..0] == [];
    assert PostfixAll(f) == [] + Postfix(t);
  }

  // ----- every run is a fold of the parse -----

  ghost predicate RunsAsFold<L, V>(g: Algebra<L, V>, ops: seq<Op<L>>, st: seq<Tree<L>>) {
    match Run(TreeAlgebra(), ops, st)
    case None => Run(g, ops, FoldAll(g, st)) == None
    case Some(st') => Run(g, ops, FoldAll(g, st)) == Some(FoldAll(g, st'))
  }

  lemma {:induction false} RunIsFold<L, V>(g: Algebra<L, V>, ops: seq<Op<L>>, st: seq<Tree<L>>)
    ensures RunsAsFold(g, ops, st)
  {
    if ops != [] && !ZeroArity(ops[0]) && |st| >= Pops(ops[0]) {
      var k := |st| - Pops(ops[0]);
      var t := Node(ops[0], st[k..]);
      var st' := st[..k] + [t];
      assert FoldAll(g, st)[k..] == FoldAll(g, st[k..]);
      assert FoldAll(g, st)[..k] + [Fold(g, t)] == FoldAll(g, st');
      assert Step(TreeAlgebra(), ops[0], st) == Some(st');
      RunIsFold(g, ops[1..], st');
    }
  }

  /** The machine computes the fold of the program's tree. */
  lemma RunOfTree<L, V>(g: Algebra<L, V>, t: Tree<L>)
    requires WellFormed(t)
    ensures Run(g, Postfix(t), []) == Some([Fold(g, t)])
  {
    RunPostfix(t, [], []);
    assert Postfix(t) + [] == Postfix(t) && [] + [t] == [t];
    RunIsFold(g, Postfix(t), []);
    assert FoldAll(g, []) == [];
    assert FoldAll(g, [t]) == [Fold(g, t)];
  }

  /** A run of any algebra that ends with one value has a tree, and the value is its fold. */
  lemma TreeOfRun<L, V>(g: Algebra<L, V>, ops: seq<Op<L>>) returns (t: Tree<L>)
    requires Run(g, ops, []).Some? && |Run(g, ops, []).value| == 1
    ensures WellFormed(t) && Postfix(t) == ops && Run(g, ops, []) == Some([Fold(g, t)])
  {
    RunIsFold(g, ops, []);
    assert FoldAll(g, []) == [];
    t := ParseExists(ops);
    RunOfTree(g, t);
  }

  // ----- depth -----

  lemma {:induction false} CappedRun<L, V>(g: Algebra<L, V>, cap: nat, ops: seq<Op<L>>, st: seq<V>)
    requires |st| <= cap
    ensures RunCapped(g, cap, ops, st) ==
            if Run(g, ops, st).Some? && StackPeak(ops, |st|) <= cap then Run(g, ops, st) else None
  {
    if ops != [] && Step(g, ops[0], st).Some? && |Step(g, ops[0], st).value| <= cap {
      CappedRun(g, cap, ops[1..], Step(g, ops[0], st).value);
    }
  }

  /** The machine's largest stack on a postfix form is the tree's `Peak`. */
  lemma {:induction false} PeakOfPostfix<L>(t: Tree<L>, rest: seq<Op<L>>, d: nat)
    requires WellFormed(t)
    ensures StackPeak(Postfix(t) + rest, d) == Max(d + Peak(t), StackPeak(rest, d + 1))
    decreases t, 1
  {
    assert Postfix(t) + rest == PostfixAll(t.kids) + ([t.op] + rest);
    PeakOfPostfixAll(t.kids, [t.op] + rest, d);
    assert ([t.op] + rest)[1..] == rest;
  }

  lemma {:induction false} PeakOfPostfixAll<L>(ts: seq<Tree<L>>, rest: seq<Op<L>>, d: nat)
    requires AllWellFormed(ts)
    ensures StackPeak(PostfixAll(ts) + rest, d) == Max(d + PeakAll(ts), StackPeak(rest, d + |ts|))
    decreases ts, 0
  {
    if ts == [] {
      assert PostfixAll(ts) + rest == rest;
    } else {
      var ts', t := ts[..|ts|-1], ts[|ts|-1];
      assert PostfixAll(ts) + rest == PostfixAll(ts') + (Postfix(t) + rest);
      PeakOfPostfixAll(ts', Postfix(t) + rest, d);
      PeakOfPostfix(t, rest, d + |ts'|);
    }
  }

  /** Evaluating a tree's postfix form from an empty stack needs `Peak` slots. */
  lemma PeakOfTree<L>(t: Tree<L>)
    requires WellFormed(t)
    ensures StackPeak(Postfix(t), 0) == Peak(t)
  {
    hide Postfix, WellFormed, Peak;
    PeakOfPostfix(t, [], 0);
    assert Postfix(t) + [] == Postfix(t);
  }
}
