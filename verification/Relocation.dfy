/** Moving an invocation to an account whose address nothing names. What a rule says about
    "self" and about address literals survives the move, so an account that a policy names
    by its own address needs no special treatment. */
module Relocation {
  import opened Program
  import opened Doc
  import opened Compile
  import opened Lowering
  import opened Agreement

  predicate SaysSelf(args: seq<ArgConstraint>, i: nat) {
    exists k :: 0 <= k < |args| && args[k].index == i && args[k].pred.IsSelf?
  }

  predicate Constrains(args: seq<ArgConstraint>, i: nat) {
    exists k :: 0 <= k < |args| && args[k].index == i
  }

  /** No position is required to be both the account itself and a literal. A valid rule
      constrains no position twice. */
  predicate Unmixed(rule: Rule) {
    var args := ArgsOf(rule);
    forall j, k :: 0 <= j < |args| && 0 <= k < |args| && args[j].index == args[k].index ==>
      !(args[j].pred.IsSelf? && args[k].pred.AddressEq?)
  }

  /** An argument equal to the account moves with it where the child says "self", or where
      the child says nothing and the parent does. */
  predicate Moves(child: Rule, parent: Rule, i: nat) {
    SaysSelf(ArgsOf(child), i) || (!Constrains(ArgsOf(child), i) && SaysSelf(ArgsOf(parent), i))
  }

  function MovedArg(val: Val, self: Address, s: Address, moves: bool): Val {
    if moves && val == AddressVal(self) then AddressVal(s) else val
  }

  function MovedArgs(inp: EvalInputs, s: Address, child: Rule, parent: Rule): (r: Args)
    requires inp.context.ContractCall?
    ensures |r| == |inp.context.args|
  {
    seq(|inp.context.args|, i requires 0 <= i < |inp.context.args| =>
      MovedArg(inp.context.args[i], inp.selfAddr, s, Moves(child, parent, i)))
  }

  function Relocated(inp: EvalInputs, s: Address, child: Rule, parent: Rule): EvalInputs {
    EvalInputs(
      if inp.context.ContractCall? then ContractCall(inp.context.fnName, MovedArgs(inp, s, child, parent))
        else OtherContext,
      inp.signerCount, s, inp.ledger)
  }

  function Literals(rule: Rule): set<Address> {
    set c | c in ArgsOf(rule) && c.pred.AddressEq? :: c.pred.address
  }

  function AddressArgs(inp: EvalInputs): set<Address> {
    if inp.context.ContractCall? then set v | v in inp.context.args && v.AddressVal? :: v.addr else {}
  }

  /** The address is new to both rules and to the invocation. */
  predicate Unnamed(s: Address, inp: EvalInputs, child: Rule, parent: Rule) {
    s !in Literals(child) && s !in Literals(parent) && s !in AddressArgs(inp)
  }

  lemma LiteralNamed(rule: Rule, k: nat)
    requires k < |ArgsOf(rule)| && ArgsOf(rule)[k].pred.AddressEq?
    ensures ArgsOf(rule)[k].pred.address in Literals(rule)
  {
    assert ArgsOf(rule)[k] in ArgsOf(rule);
  }

  lemma ArgNamed(inp: EvalInputs, i: nat)
    requires inp.context.ContractCall? && i < |inp.context.args| && inp.context.args[i].AddressVal?
    ensures inp.context.args[i].addr in AddressArgs(inp)
  {
    assert inp.context.args[i] in inp.context.args;
  }

  /** One constraint of the child moves along. */
  lemma ConstraintMoves(inp: EvalInputs, s: Address, child: Rule, parent: Rule, k: nat)
    requires Unmixed(child) && k < |ArgsOf(child)| && ArgHolds(inp, ArgsOf(child)[k])
    ensures ArgHolds(Relocated(inp, s, child, parent), ArgsOf(child)[k])
  {
    var c := ArgsOf(child)[k];
    assert Constrains(ArgsOf(child), c.index);
    if c.pred.IsSelf? { assert SaysSelf(ArgsOf(child), c.index); }
    assert c.pred.AddressEq? ==> !SaysSelf(ArgsOf(child), c.index);
  }

  /** One constraint of the parent moves back. */
  lemma ConstraintReturns(inp: EvalInputs, s: Address, child: Rule, parent: Rule, k: nat)
    requires Unnamed(s, inp, child, parent)
    requires k < |ArgsOf(parent)| && ArgHolds(Relocated(inp, s, child, parent), ArgsOf(parent)[k])
    ensures ArgHolds(inp, ArgsOf(parent)[k])
  {
    hide Moves;
    var c := ArgsOf(parent)[k];
    if c.pred.AddressEq? { LiteralNamed(parent, k); }
    if inp.context.args[c.index].AddressVal? { ArgNamed(inp, c.index); }
  }

  lemma ChildMoves(inp: EvalInputs, s: Address, child: Rule, parent: Rule)
    requires Countable(child) && !child.principals.SelfAuthenticating? && Unmixed(child) && RuleAllows(inp, child)
    ensures RuleAllows(Relocated(inp, s, child, parent), child)
  {
    hide ArgHolds, Unmixed, Moves;
    forall k | 0 <= k < |ArgsOf(child)| ensures ArgHolds(Relocated(inp, s, child, parent), ArgsOf(child)[k]) {
      ConstraintMoves(inp, s, child, parent, k);
    }
  }

  lemma ParentReturns(inp: EvalInputs, s: Address, child: Rule, parent: Rule)
    requires Countable(parent) && !parent.principals.SelfAuthenticating? && Unnamed(s, inp, child, parent)
    requires RuleAllows(Relocated(inp, s, child, parent), parent)
    ensures RuleAllows(inp, parent)
  {
    hide ArgHolds, Moves, Unnamed;
    forall k | 0 <= k < |ArgsOf(parent)| ensures ArgHolds(inp, ArgsOf(parent)[k]) {
      ConstraintReturns(inp, s, child, parent, k);
    }
  }

  lemma UnnamedForeign(s: Address, inp: EvalInputs, child: Rule, parent: Rule)
    requires Unnamed(s, inp, child, parent)
    ensures Foreign(s, child) && Foreign(s, parent)
  {
    forall k | 0 <= k < |ArgsOf(child)| ensures ArgsOf(child)[k].pred != AddressEq(s) {
      if ArgsOf(child)[k].pred.AddressEq? { LiteralNamed(child, k); }
    }
    forall k | 0 <= k < |ArgsOf(parent)| ensures ArgsOf(parent)[k].pred != AddressEq(s) {
      if ArgsOf(parent)[k].pred.AddressEq? { LiteralNamed(parent, k); }
    }
  }

  ghost function NewAddress(inp: EvalInputs, child: Rule, parent: Rule): (s: Address)
    ensures Unnamed(s, inp, child, parent)
  {
    FreshAddress(Literals(child) + Literals(parent) + AddressArgs(inp))
  }
}
