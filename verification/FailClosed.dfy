/** What the three-valued evaluation means (crates/perch-program/src/lib.rs): a definite
    verdict is the Boolean value of the program whatever the undecodable leaves would have
    been, and nothing definite comes out of undecodable leaves alone. */
module FailClosed {
  import opened StackMachine
  import opened Program

  // ----- the reference: two-valued trees -----

  /** The Boolean value of an expression tree. */
  ghost predicate Value<L>(leaf: L -> bool, t: Tree<L>) {
    match t.op
    case Leaf(l) => leaf(l)
    case Not => |t.kids| == 1 && !Value(leaf, t.kids[0])
    case All(_) => forall i :: 0 <= i < |t.kids| ==> Value(leaf, t.kids[i])
    case Any(_) => exists i :: 0 <= i < |t.kids| && Value(leaf, t.kids[i])
  }

  /** `b` decides as `v` does, where `v` is definite. */
  predicate Agrees(v: Verdict, b: bool) {
    v == Unknown || v == FromBool(b)
  }

  /** Every leaf of the tree is decided by `full` as by `leaf`, where that is definite. */
  ghost predicate Completes<L>(leaf: L -> Verdict, full: L -> bool, t: Tree<L>) {
    if t.op.Leaf? then Agrees(leaf(t.op.leaf), full(t.op.leaf))
    else forall i :: 0 <= i < |t.kids| ==> Completes(leaf, full, t.kids[i])
  }

  /** Every leaf of the tree that `leaf` decides, `more` decides alike. */
  ghost predicate Refines<L>(leaf: L -> Verdict, more: L -> Verdict, t: Tree<L>) {
    if t.op.Leaf? then leaf(t.op.leaf) == Unknown || leaf(t.op.leaf) == more(t.op.leaf)
    else forall i :: 0 <= i < |t.kids| ==> Refines(leaf, more, t.kids[i])
  }

  /** No leaf of the tree is decided. */
  ghost predicate Undecided<L>(leaf: L -> Verdict, t: Tree<L>) {
    if t.op.Leaf? then leaf(t.op.leaf) == Unknown else forall i :: 0 <= i < |t.kids| ==> Undecided(leaf, t.kids[i])
  }

  /** Every leaf of the tree is decided. */
  ghost predicate Decided<L>(leaf: L -> Verdict, t: Tree<L>) {
    if t.op.Leaf? then leaf(t.op.leaf) != Unknown else forall i :: 0 <= i < |t.kids| ==> Decided(leaf, t.kids[i])
  }

  // ----- lists -----

  lemma {:induction false} AllOfMeans(vs: seq<Verdict>)
    ensures AllOf(vs) == True <==> forall i :: 0 <= i < |vs| ==> vs[i] == True
    ensures AllOf(vs) == False <==> exists i :: 0 <= i < |vs| && vs[i] == False
  {
    if vs != [] {
      AllOfMeans(vs[1..]);
      assert vs == [vs[0]] + vs[1..];
      assert forall i :: 1 <= i < |vs| ==> vs[i] == vs[1..][i-1];
      if exists i :: 0 <= i < |vs[1..]| && vs[1..][i] == False {
        var i :| 0 <= i < |vs[1..]| && vs[1..][i] == False;
        assert vs[i + 1] == False;
      }
    }
  }

  lemma {:induction false} AnyOfMeans(vs: seq<Verdict>)
    ensures AnyOf(vs) == False <==> forall i :: 0 <= i < |vs| ==> vs[i] == False
    ensures AnyOf(vs) == True <==> exists i :: 0 <= i < |vs| && vs[i] == True
  {
    if vs != [] {
      AnyOfMeans(vs[1..]);
      assert vs == [vs[0]] + vs[1..];
      assert forall i :: 1 <= i < |vs| ==> vs[i] == vs[1..][i-1];
      if exists i :: 0 <= i < |vs[1..]| && vs[1..][i] == True {
        var i :| 0 <= i < |vs[1..]| && vs[1..][i] == True;
        assert vs[i + 1] == True;
      }
    }
  }

  lemma FoldAllAt<L>(leaf: L -> Verdict, ts: seq<Tree<L>>)
    ensures |FoldAll(Kleene(leaf), ts)| == |ts|
    ensures forall i :: 0 <= i < |ts| ==> FoldAll(Kleene(leaf), ts)[i] == Fold(Kleene(leaf), ts[i])
  {
  }

  // ----- trees -----

  /** A definite verdict survives every completion of the undecodable leaves: it is the
      Boolean value of the tree under any of them. */
  lemma {:induction false} DefiniteIsValue<L>(leaf: L -> Verdict, full: L -> bool, t: Tree<L>)
    requires WellFormed(t) && Completes(leaf, full, t)
    ensures Agrees(Fold(Kleene(leaf), t), Value(full, t))
    decreases t
  {
    var vs := FoldAll(Kleene(leaf), t.kids);
    FoldAllAt(leaf, t.kids);
    if !t.op.Leaf? {
      forall i | 0 <= i < |t.kids| ensures Agrees(vs[i], Value(full, t.kids[i])) {
        DefiniteIsValue(leaf, full, t.kids[i]);
      }
    }
    match t.op
    case All(_) => AllOfMeans(vs);
    case Any(_) => AnyOfMeans(vs);
    case Not => assert Fold(Kleene(leaf), t) == vs[0].Negate();
    case Leaf(_) =>
  }

  /** Refinement: deciding more leaves never changes a definite verdict. */
  lemma {:induction false} Refinement<L>(leaf: L -> Verdict, more: L -> Verdict, t: Tree<L>)
    requires WellFormed(t) && Refines(leaf, more, t)
    ensures Fold(Kleene(leaf), t) == Unknown || Fold(Kleene(leaf), t) == Fold(Kleene(more), t)
    decreases t
  {
    var vs, us := FoldAll(Kleene(leaf), t.kids), FoldAll(Kleene(more), t.kids);
    FoldAllAt(leaf, t.kids);
    FoldAllAt(more, t.kids);
    if !t.op.Leaf? {
      forall i | 0 <= i < |t.kids| ensures vs[i] == Unknown || vs[i] == us[i] { Refinement(leaf, more, t.kids[i]); }
    }
    match t.op
    case All(_) => AllOfMeans(vs); AllOfMeans(us);
    case Any(_) => AnyOfMeans(vs); AnyOfMeans(us);
    case Not =>
      assert Fold(Kleene(leaf), t) == vs[0].Negate();
      assert Fold(Kleene(more), t) == us[0].Negate();
    case Leaf(_) =>
  }

  /** From undecodable leaves alone nothing definite comes. */
  lemma {:induction false} UnknownStays<L>(leaf: L -> Verdict, t: Tree<L>)
    requires WellFormed(t) && Undecided(leaf, t)
    ensures Fold(Kleene(leaf), t) == Unknown
    decreases t
  {
    var vs := FoldAll(Kleene(leaf), t.kids);
    FoldAllAt(leaf, t.kids);
    if !t.op.Leaf? {
      forall i | 0 <= i < |t.kids| ensures vs[i] == Unknown { UnknownStays(leaf, t.kids[i]); }
    }
    match t.op
    case All(_) => AllOfMeans(vs);
    case Any(_) => AnyOfMeans(vs);
    case Not => assert Fold(Kleene(leaf), t) == vs[0].Negate();
    case Leaf(_) =>
  }

  /** On decodable leaves the verdict is definite, hence the Boolean value. */
  lemma {:induction false} DecodedIsDefinite<L>(leaf: L -> Verdict, t: Tree<L>)
    requires WellFormed(t) && Decided(leaf, t)
    ensures Fold(Kleene(leaf), t) != Unknown
    decreases t
  {
    var vs := FoldAll(Kleene(leaf), t.kids);
    FoldAllAt(leaf, t.kids);
    if !t.op.Leaf? {
      forall i | 0 <= i < |t.kids| ensures vs[i] != Unknown { DecodedIsDefinite(leaf, t.kids[i]); }
    }
    match t.op
    case All(_) => AllOfMeans(vs);
    case Any(_) => AnyOfMeans(vs);
    case Not => assert Fold(Kleene(leaf), t) == vs[0].Negate();
    case Leaf(_) =>
  }

  // ----- programs -----

  /** What one invocation gives each leaf. */
  function Reading(inp: EvalInputs): Predicate -> Verdict {
    (p: Predicate) => LeafVerdict(inp, p)
  }

  lemma VerdictIsFold(inp: EvalInputs, ops: seq<ProgramOp>, t: Tree<Predicate>)
    requires Spells(ops, t)
    ensures OpsVerdict(inp, ops) == Fold(Kleene(Reading(inp)), t)
  {
    assert Verdicts(inp) == Kleene(Reading(inp));
    VerdictOfTree(inp, ops, t);
  }

  /** A call is authorized only if the program is true of it under every reading of what could
      not be decoded, and it is definitely refused only if it is false under every one. */
  lemma AuthorizedMeans(inp: EvalInputs, ops: seq<ProgramOp>, t: Tree<Predicate>, full: Predicate -> bool)
    requires Spells(ops, t) && Completes(Reading(inp), full, t)
    ensures OpsVerdict(inp, ops) == True ==> Value(full, t)
    ensures OpsVerdict(inp, ops) == False ==> !Value(full, t)
  {
    hide OpsVerdict, Reading;
    VerdictIsFold(inp, ops, t);
    DefiniteIsValue(Reading(inp), full, t);
  }

  /** A call none of whose leaves decodes is never authorized, however the program is put
      together. */
  lemma UndecodableDenied(inp: EvalInputs, ops: seq<ProgramOp>, t: Tree<Predicate>)
    requires Spells(ops, t) && Undecided(Reading(inp), t)
    ensures OpsVerdict(inp, ops) == Unknown
  {
    hide OpsVerdict, Reading;
    VerdictIsFold(inp, ops, t);
    UnknownStays(Reading(inp), t);
  }

  function Truth(inp: EvalInputs): Predicate -> bool {
    (p: Predicate) => LeafVerdict(inp, p) == True
  }

  /** A call all of whose leaves decode gets the program's Boolean value. */
  lemma DecodedVerdict(inp: EvalInputs, ops: seq<ProgramOp>, t: Tree<Predicate>)
    requires Spells(ops, t) && Decided(Reading(inp), t)
    ensures OpsVerdict(inp, ops) == FromBool(Value(Truth(inp), t))
  {
    hide OpsVerdict;
    VerdictIsFold(inp, ops, t);
    DecodedIsDefinite(Reading(inp), t);
    TruthCompletes(inp, t);
    DefiniteIsValue(Reading(inp), Truth(inp), t);
  }

  lemma {:induction false} TruthCompletes(inp: EvalInputs, t: Tree<Predicate>)
    requires Decided(Reading(inp), t)
    ensures Completes(Reading(inp), Truth(inp), t)
    decreases t
  {
    hide LeafVerdict;
    if !t.op.Leaf? {
      forall i | 0 <= i < |t.kids| ensures Completes(Reading(inp), Truth(inp), t.kids[i]) {
        TruthCompletes(inp, t.kids[i]);
      }
    }
  }
}
