/** Constraint programs: verdicts, leaf predicates, the install-time validator and
    the fail-closed evaluator (crates/perch-program). */
module Program {
  import opened Base
  import opened StackMachine

  const PROGRAM_VERSION: u32 := 1
  const MAX_PROGRAM_LEN := 256
  const MAX_STACK_DEPTH := 128
  const MAX_STR_ARG_LEN := 256

  /** Kleene verdicts, ordered `False < Unknown < True`. */
  datatype Verdict = False | Unknown | True {
    function Rank(): nat {
      match this case False => 0 case Unknown => 1 case True => 2
    }
    predicate Leq(other: Verdict) { Rank() <= other.Rank() }
    function And(other: Verdict): Verdict { if Leq(other) then this else other }
    function Or(other: Verdict): Verdict { if Leq(other) then other else this }
    function Negate(): Verdict {
      match this case False => True case Unknown => Unknown case True => False
    }
  }

  function FromBool(b: bool): Verdict {
    if b then True else False
  }

  /** An address is identified with its strkey. */
  type Address = string
  type Symbol = string

  /** A call argument as the leaf predicates can decode it. */
  datatype Val =
    | AddressVal(addr: Address)
    | SymbolVal(sym: Symbol)
    | StringVal(text: seq<byte>)
    | BytesVal(bytes: seq<byte>)
    | I128Val(i128: int)
    | U32Val(n: u32)
    | OtherVal

  type Args = a: seq<Val> | |a| <= U32_MAX

  datatype Context = ContractCall(fnName: Symbol, args: Args) | OtherContext

  datatype EvalInputs = EvalInputs(context: Context, signerCount: u32, selfAddr: Address, ledger: u32)

  datatype Predicate =
    | MinSigners(count: u32)
    | FnIn(fns: seq<Symbol>)
    | ArgAddrEq(index: u32, addr: Address)
    | ArgAddrIsSelf(index: u32)
    | ArgSymEq(index: u32, sym: Symbol)
    | ArgStrIn(index: u32, choices: seq<seq<byte>>)
    | ArgStrPrefix(index: u32, prefix: seq<byte>)
    | ArgBytesEq(index: u32, bytes: seq<byte>)
    | ArgI128Eq(index: u32, i128: int)
    | ArgU32Eq(index: u32, value: u32)
    | ArgCount(count: u32)
    | LedgerBefore(ledger: u32)
    | LedgerAtOrAfter(ledger: u32)

  type ProgramOp = Op<Predicate>

  datatype RpnProgram = RpnProgram(version: u32, ops: seq<ProgramOp>)

  /** What an account installs for one rule; the provenance hash is kept as its preimage. */
  datatype InstallParams = InstallParams(program: RpnProgram, provenance: string)

  datatype ValidationError =
    | UnknownVersion | Empty | TooLarge | ArityMismatch
    | StackUnderflow | StackOverflow | NotSingleResult

  // ----- leaves -----

  function Arg(inp: EvalInputs, i: u32): Option<Val> {
    if inp.context.ContractCall? && i < |inp.context.args| then Some(inp.context.args[i]) else None
  }

  function StringArg(inp: EvalInputs, i: u32): Option<seq<byte>> {
    match Arg(inp, i)
    case Some(StringVal(s)) => Some(s)
    case _ => None
  }

  /** What a leaf means. Anything undecodable is `Unknown`, never `False`. */
  function LeafVerdict(inp: EvalInputs, p: Predicate): Verdict {
    match p
    case MinSigners(n) => FromBool(inp.signerCount >= n)
    case FnIn(fns) =>
      if inp.context.ContractCall? then FromBool(inp.context.fnName in fns) else Unknown
    case ArgAddrEq(i, a) =>
      (match Arg(inp, i) case Some(AddressVal(x)) => FromBool(x == a) case _ => Unknown)
    case ArgAddrIsSelf(i) =>
      (match Arg(inp, i) case Some(AddressVal(x)) => FromBool(x == inp.selfAddr) case _ => Unknown)
    case ArgSymEq(i, s) =>
      (match Arg(inp, i) case Some(SymbolVal(x)) => FromBool(x == s) case _ => Unknown)
    case ArgStrIn(i, choices) =>
      (match StringArg(inp, i)
       case Some(s) => if |s| <= MAX_STR_ARG_LEN then FromBool(s in choices) else Unknown
       case None => Unknown)
    case ArgStrPrefix(i, prefix) =>
      (match StringArg(inp, i)
       case Some(s) => if |prefix| <= MAX_STR_ARG_LEN then FromBool(prefix <= s) else Unknown
       case None => Unknown)
    case ArgBytesEq(i, b) =>
      (match Arg(inp, i) case Some(BytesVal(x)) => FromBool(x == b) case _ => Unknown)
    case ArgI128Eq(i, n) =>
      (match Arg(inp, i) case Some(I128Val(x)) => FromBool(x == n) case _ => Unknown)
    case ArgU32Eq(i, n) =>
      (match Arg(inp, i) case Some(U32Val(x)) => FromBool(x == n) case _ => Unknown)
    case ArgCount(n) =>
      if inp.context.ContractCall? then FromBool(|inp.context.args| == n) else Unknown
    case LedgerBefore(n) => FromBool(inp.ledger < n)
    case LedgerAtOrAfter(n) => FromBool(inp.ledger >= n)
  }

  /** Copy a string into a fixed buffer, or refuse one that does not fit. */
  method StrBytes(s: seq<byte>, buf: array<byte>) returns (len: Option<nat>)
    requires buf.Length == MAX_STR_ARG_LEN
    modifies buf
    ensures len == if |s| <= MAX_STR_ARG_LEN then Some(|s|) else None
    ensures len.Some? ==> buf[..|s|] == s
  {
    if |s| > MAX_STR_ARG_LEN { return None; }
    for k := 0 to |s|
      invariant buf[..k] == s[..k]
    {
      buf[k] := s[k];
      assert s[..k+1] == s[..k] + [s[k]];
    }
    assert s[..|s|] == s;
    return Some(|s|);
  }

  /** Copy the first `n` bytes; `false` if the string is shorter. */
  method StrHead(s: seq<byte>, n: nat, buf: array<byte>) returns (ok: bool)
    requires buf.Length == MAX_STR_ARG_LEN && n <= MAX_STR_ARG_LEN
    modifies buf
    ensures ok <==> n <= |s|
    ensures ok ==> buf[..n] == s[..n]
  {
    if |s| < n { return false; }
    for k := 0 to n
      invariant buf[..k] == s[..k]
    {
      buf[k] := s[k];
      assert s[..k+1] == s[..k] + [s[k]];
    }
    return true;
  }

  method ArgStrInLeaf(inp: EvalInputs, i: u32, choices: seq<seq<byte>>) returns (v: Verdict)
    ensures v == LeafVerdict(inp, ArgStrIn(i, choices))
  {
    var arg := StringArg(inp, i);
    if arg.None? { return Unknown; }
    var s := arg.value;
    var sbuf := new byte[MAX_STR_ARG_LEN](_ => 0);
    var sn := StrBytes(s, sbuf);
    if sn.None? { return Unknown; }
    var cand := new byte[MAX_STR_ARG_LEN](_ => 0);
    for k := 0 to |choices|
      invariant s !in choices[..k]
      invariant sbuf[..|s|] == s
    {
      var cn := StrBytes(choices[k], cand);
      if cn.Some? && cn.value == sn.value && cand[..cn.value] == sbuf[..sn.value] {
        assert choices[k] == s;
        return True;
      }
    }
    return False;
  }

  method ArgStrPrefixLeaf(inp: EvalInputs, i: u32, prefix: seq<byte>) returns (v: Verdict)
    ensures v == LeafVerdict(inp, ArgStrPrefix(i, prefix))
  {
    var arg := StringArg(inp, i);
    if arg.None? { return Unknown; }
    var pbuf := new byte[MAX_STR_ARG_LEN](_ => 0);
    var pn := StrBytes(prefix, pbuf);
    if pn.None? { return Unknown; }
    var sbuf := new byte[MAX_STR_ARG_LEN](_ => 0);
    var long := StrHead(arg.value, pn.value, sbuf);
    if !long { return False; }
    return FromBool(sbuf[..pn.value] == pbuf[..pn.value]);
  }

  // ----- meaning -----

  /** Kleene conjunction of a list: the minimum, `True` when empty. */
  function AllOf(vs: seq<Verdict>): Verdict {
    if vs == [] then True else vs[0].And(AllOf(vs[1..]))
  }

  /** Kleene disjunction of a list: the maximum, `False` when empty. */
  function AnyOf(vs: seq<Verdict>): Verdict {
    if vs == [] then False else vs[0].Or(AnyOf(vs[1..]))
  }

  /** The Kleene connectives, with leaves read by `leaf`. */
  function Kleene<L>(leaf: L -> Verdict): Algebra<L, Verdict> {
    (op: Op<L>, vs: seq<Verdict>) =>
      match op
      case All(_) => AllOf(vs)
      case Any(_) => AnyOf(vs)
      case Not => if |vs| == 1 then vs[0].Negate() else Unknown
      case Leaf(l) => leaf(l)
  }

  function Verdicts(inp: EvalInputs): Algebra<Predicate, Verdict> {
    Kleene(p => LeafVerdict(inp, p))
  }

  /** The verdict of an expression tree on one invocation: no stack, no guards. */
  function TreeVerdict(inp: EvalInputs, t: Tree<Predicate>): Verdict {
    Fold(Verdicts(inp), t)
  }

  /** The verdict of any op sequence: the machine's single result, else `Unknown`. */
  function OpsVerdict(inp: EvalInputs, ops: seq<ProgramOp>): Verdict {
    match RunCapped(Verdicts(inp), MAX_STACK_DEPTH, ops, [])
    case Some(st) => if |st| == 1 then st[0] else Unknown
    case None => Unknown
  }

  // ----- validation -----

  /** `ops` is the postfix form of `t`, and evaluating `t` fits the stack. */
  ghost predicate Spells(ops: seq<ProgramOp>, t: Tree<Predicate>) {
    WellFormed(t) && Postfix(t) == ops && Peak(t) <= 128
  }

  ghost predicate Accepted(p: RpnProgram) {
    && p.version == 1 && 1 <= |p.ops| <= 256
    && exists t :: Spells(p.ops, t)
  }

  /** Stack-effect simulation from `depth`: the depth it ends with, or why it stops. */
  function Simulate(ops: seq<ProgramOp>, depth: nat): Result<nat, ValidationError> {
    if ops == [] then Ok(depth)
    else if ZeroArity(ops[0]) then Err(ArityMismatch)
    else if depth < Pops(ops[0]) then Err(StackUnderflow)
    else if depth - Pops(ops[0]) + 1 > MAX_STACK_DEPTH then Err(StackOverflow)
    else Simulate(ops[1..], depth - Pops(ops[0]) + 1)
  }

  /** Validate by simulating the stack effect.

      Acceptance is exactly "version 1, 1 to 256 ops, the postfix form of an
      expression tree that fits 128 slots"; otherwise the first defect is named. */
  method Validate(p: RpnProgram) returns (r: Result<(), ValidationError>)
    ensures r.Ok? <==> Accepted(p)
    ensures r == Err(UnknownVersion) <==> p.version != PROGRAM_VERSION
    ensures r == Err(Empty) <==> p.version == PROGRAM_VERSION && p.ops == []
    ensures r == Err(TooLarge) <==> p.version == PROGRAM_VERSION && |p.ops| > MAX_PROGRAM_LEN
    ensures p.version == PROGRAM_VERSION && 1 <= |p.ops| <= MAX_PROGRAM_LEN && r.Err? ==>
              match Simulate(p.ops, 0)
              case Ok(depth) => r == Err(NotSingleResult) && depth != 1
              case Err(e) => r == Err(e)
  {
    if p.version != PROGRAM_VERSION { return Err(UnknownVersion); }
    var len := |p.ops|;
    if len == 0 { return Err(Empty); }
    if len > MAX_PROGRAM_LEN { return Err(TooLarge); }
    var depth: nat := 0;
    var idx := 0;
    AcceptedIsSimulated(p.ops);
    assert p.ops[0..] == p.ops;
    while idx < len
      invariant 0 <= idx <= len
      invariant Simulate(p.ops, 0) == Simulate(p.ops[idx..], depth)
    {
      var op := p.ops[idx];
      assert p.ops[idx..][0] == op && p.ops[idx..][1..] == p.ops[idx+1..];
      idx := idx + 1;
      if ZeroArity(op) { return Err(ArityMismatch); }
      if depth < Pops(op) { return Err(StackUnderflow); }
      depth := depth - Pops(op) + 1;
      if depth > MAX_STACK_DEPTH { return Err(StackOverflow); }
    }
    assert p.ops[idx..] == [];
    if depth == 1 { return Ok(()); } else { return Err(NotSingleResult); }
  }

  /** The simulation tracks the stack size of any run within the cap. */
  lemma {:induction false} SimulateIsRun<V>(g: Algebra<Predicate, V>, ops: seq<ProgramOp>, st: seq<V>)
    ensures Simulate(ops, |st|).Ok? <==> RunCapped(g, MAX_STACK_DEPTH, ops, st).Some?
    ensures Simulate(ops, |st|).Ok? ==> Simulate(ops, |st|).value == |RunCapped(g, MAX_STACK_DEPTH, ops, st).value|
  {
    if ops != [] && Step(g, ops[0], st).Some? && |Step(g, ops[0], st).value| <= MAX_STACK_DEPTH {
      SimulateIsRun(g, ops[1..], Step(g, ops[0], st).value);
    }
  }

  lemma AcceptedIsSimulated(ops: seq<ProgramOp>)
    ensures Simulate(ops, 0) == Ok(1) <==> exists t :: Spells(ops, t)
  {
    var g: Algebra<Predicate, Tree<Predicate>> := TreeAlgebra();
    SimulateIsRun(g, ops, []);
    CappedRun(g, MAX_STACK_DEPTH, ops, []);
    if Simulate(ops, 0) == Ok(1) {
      var t := ParseExists(ops);
      PeakOfTree(t);
      assert Spells(ops, t);
    }
    if t :| Spells(ops, t) {
      PeakOfTree(t);
      RunOfTree(g, t);
    }
  }

  /** The tree of an accepted program is unique. */
  lemma AcceptedTreeUnique(ops: seq<ProgramOp>, t: Tree<Predicate>, u: Tree<Predicate>)
    requires Spells(ops, t) && Spells(ops, u)
    ensures t == u
  {
    ParseUnique(t, u);
  }

  /** On an accepted program the machine's verdict is the tree's: no guard fires. */
  lemma VerdictOfTree(inp: EvalInputs, ops: seq<ProgramOp>, t: Tree<Predicate>)
    requires Spells(ops, t)
    ensures OpsVerdict(inp, ops) == TreeVerdict(inp, t)
  {
    CappedRun(Verdicts(inp), MAX_STACK_DEPTH, ops, []);
    PeakOfTree(t);
    RunOfTree(Verdicts(inp), t);
  }

  // ----- evaluation -----

  /** One stack step with the verdict `v` produced by `op`, as `Eval` performs it. */
  lemma EvalStep(g: Algebra<Predicate, Verdict>, ops: seq<ProgramOp>, st: seq<Verdict>, v: Verdict)
    requires ops != [] && !ZeroArity(ops[0]) && Pops(ops[0]) <= |st|
    requires v == g(ops[0], st[|st| - Pops(ops[0])..])
    ensures var below := st[..|st| - Pops(ops[0])];
            RunCapped(g, MAX_STACK_DEPTH, ops, st) ==
            if |below| >= MAX_STACK_DEPTH then None
            else RunCapped(g, MAX_STACK_DEPTH, ops[1..], below + [v])
  {
  }

  /** Pop an op's operands and compute its verdict, or refuse (`None`) an op that the
      stack cannot feed. */
  method EvalOp(stack: array<Verdict>, sp: nat, op: ProgramOp, inp: EvalInputs)
    returns (w: Option<Verdict>, sp': nat)
    requires sp <= stack.Length
    ensures w.None? <==> ZeroArity(op) || sp < Pops(op)
    ensures w.Some? ==> sp' == sp - Pops(op) && w.value == Verdicts(inp)(op, stack[sp'..sp])
  {
    w, sp' := None, sp;
    match op {
      case All(n) =>
        if n == 0 || sp < n { return; }
        var v;
        v, sp' := PopAll(stack, sp, n);
        w := Some(v);
      case Any(n) =>
        if n == 0 || sp < n { return; }
        var v;
        v, sp' := PopAny(stack, sp, n);
        w := Some(v);
      case Not =>
        if sp == 0 { return; }
        sp' := sp - 1;
        w := Some(stack[sp'].Negate());
      case Leaf(pred) =>
        var v := EvalLeaf(pred, inp);
        w := Some(v);
    }
  }

  method EvalLeaf(pred: Predicate, inp: EvalInputs) returns (v: Verdict)
    ensures v == LeafVerdict(inp, pred)
  {
    match pred {
      case ArgStrIn(i, choices) => v := ArgStrInLeaf(inp, i, choices);
      case ArgStrPrefix(i, prefix) => v := ArgStrPrefixLeaf(inp, i, prefix);
      case _ => v := LeafVerdict(inp, pred);
    }
  }

  /** Evaluate with a fixed 128-slot array. Every op sequence gets a verdict, and on a
      program that spells a tree it is that tree's Kleene value. */
  method Eval(p: RpnProgram, inp: EvalInputs) returns (v: Verdict)
    ensures v == OpsVerdict(inp, p.ops)
    ensures forall t :: Spells(p.ops, t) ==> v == TreeVerdict(inp, t)
  {
    forall t | Spells(p.ops, t) ensures OpsVerdict(inp, p.ops) == TreeVerdict(inp, t) {
      VerdictOfTree(inp, p.ops, t);
    }
    ghost var g := Verdicts(inp);
    var stack := new Verdict[MAX_STACK_DEPTH](_ => Unknown);
    var sp: nat := 0;
    var len := |p.ops|;
    var idx := 0;
    assert p.ops[0..] == p.ops && stack[..0] == [];
    while idx < len
      invariant 0 <= idx <= len && 0 <= sp <= MAX_STACK_DEPTH
      invariant RunCapped(g, MAX_STACK_DEPTH, p.ops, []) ==
                RunCapped(g, MAX_STACK_DEPTH, p.ops[idx..], stack[..sp])
    {
      var op := p.ops[idx];
      ghost var rest, st := p.ops[idx..], stack[..sp];
      assert rest[0] == op && rest[1..] == p.ops[idx+1..];
      idx := idx + 1;
      var w, below := EvalOp(stack, sp, op, inp);
      if w.None? { return Unknown; }
      assert st[below..] == stack[below..sp] && st[..below] == stack[..below];
      EvalStep(g, rest, st, w.value);
      if below >= MAX_STACK_DEPTH { return Unknown; }
      stack[below] := w.value;
      sp := below + 1;
      assert stack[..sp] == st[..below] + [w.value];
    }
    assert p.ops[idx..] == [];
    if sp == 1 { return stack[0]; } else { return Unknown; }
  }

  method PopAll(stack: array<Verdict>, sp: nat, n: nat) returns (v: Verdict, sp': nat)
    requires n <= sp <= stack.Length
    ensures sp' == sp - n && v == AllOf(stack[sp'..sp])
  {
    v, sp' := True, sp;
    var k := n;
    while k > 0
      invariant 0 <= k <= n && sp' == sp - n + k
      invariant v == AllOf(stack[sp'..sp])
    {
      sp' := sp' - 1;
      assert stack[sp'..sp] == [stack[sp']] + stack[sp'+1..sp];
      v := v.And(stack[sp']);
      k := k - 1;
    }
  }

  method PopAny(stack: array<Verdict>, sp: nat, n: nat) returns (v: Verdict, sp': nat)
    requires n <= sp <= stack.Length
    ensures sp' == sp - n && v == AnyOf(stack[sp'..sp])
  {
    v, sp' := False, sp;
    var k := n;
    while k > 0
      invariant 0 <= k <= n && sp' == sp - n + k
      invariant v == AnyOf(stack[sp'..sp])
    {
      sp' := sp' - 1;
      assert stack[sp'..sp] == [stack[sp']] + stack[sp'+1..sp];
      v := v.Or(stack[sp']);
      k := k - 1;
    }
  }
}
