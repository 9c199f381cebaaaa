/** The symbolic encoding of rules as SMT terms (crates/perch-analyze/src/lib.rs). Terms
    are an AST with a denotation over one symbolic invocation. */
module Encoder {
  import opened Base
  import opened Text
  import opened Program
  import opened Doc
  import opened Compile

  const T_ADDR := 0
  const T_U32 := 1
  const T_STR := 2
  const T_OTHER := 3

  datatype Term =
    | Bool(value: bool)
    | And(parts: seq<Term>)
    | Or(parts: seq<Term>)
    | Negated(t: Term)
    | CtxContract
    | SignersAtLeast(n: nat)
    | FnNameIs(name: string)
    | ArgPresent(i: u32)
    | ArgTypeIs(i: u32, tag: int)
    | ArgAddrIs(i: u32, id: nat)
    | ArgU32Is(i: u32, n: nat)
    | ArgStrIs(i: u32, text: string)
    | ArgStrLenAtMost(i: u32, n: nat)
    | ArgStrStartsWith(i: u32, prefix: string)

  /** The four variables of one argument position. */
  datatype ArgVars = ArgVars(tag: int, addr: int, u32: int, text: string)

  /** A valuation of the declared variables. */
  datatype Model = Model(
    ctxContract: bool, fnName: string, signerCount: int, argCount: int, args: map<u32, ArgVars>)

  /** The declarations' own side conditions, for the declared argument positions. */
  ghost predicate WellSorted(m: Model, indexes: set<u32>) {
    && m.signerCount >= 0 && m.argCount >= 0
    && (forall i :: i in indexes ==> i in m.args)
    && (forall i :: i in m.args ==> 0 <= m.args[i].tag <= T_OTHER && 0 <= m.args[i].u32 <= U32_MAX)
  }

  predicate Holds(m: Model, t: Term) {
    match t
    case Bool(b) => b
    case And(parts) => forall k :: 0 <= k < |parts| ==> Holds(m, parts[k])
    case Or(parts) => exists k :: 0 <= k < |parts| && Holds(m, parts[k])
    case Negated(u) => !Holds(m, u)
    case CtxContract => m.ctxContract
    case SignersAtLeast(n) => m.signerCount >= n
    case FnNameIs(name) => m.fnName == name
    case ArgPresent(i) => i < m.argCount
    case ArgTypeIs(i, tag) => i in m.args && m.args[i].tag == tag
    case ArgAddrIs(i, id) => i in m.args && m.args[i].addr == id
    case ArgU32Is(i, n) => i in m.args && m.args[i].u32 == n
    case ArgStrIs(i, text) => i in m.args && m.args[i].text == text
    case ArgStrLenAtMost(i, n) => i in m.args && |m.args[i].text| <= n
    case ArgStrStartsWith(i, prefix) => i in m.args && prefix <= m.args[i].text
  }

  function Conj(parts: seq<Term>): Term {
    if |parts| == 0 then Bool(true) else if |parts| == 1 then parts[0] else And(parts)
  }

  function Disj(parts: seq<Term>): Term {
    if |parts| == 0 then Bool(false) else if |parts| == 1 then parts[0] else Or(parts)
  }

  ghost predicate AllHold(m: Model, parts: seq<Term>) {
    forall k :: 0 <= k < |parts| ==> Holds(m, parts[k])
  }

  lemma ConjHolds(m: Model, parts: seq<Term>)
    ensures Holds(m, Conj(parts)) <==> AllHold(m, parts)
  {
  }

  ghost predicate SomeHolds(m: Model, parts: seq<Term>) {
    exists k :: 0 <= k < |parts| && Holds(m, parts[k])
  }

  lemma DisjHolds(m: Model, parts: seq<Term>)
    ensures Holds(m, Disj(parts)) <==> SomeHolds(m, parts)
  {
    if |parts| == 1 && Holds(m, parts[0]) { assert SomeHolds(m, parts); }
  }

  lemma SomeHoldsSnoc(m: Model, parts: seq<Term>, t: Term)
    ensures SomeHolds(m, parts + [t]) <==> SomeHolds(m, parts) || Holds(m, t)
  {
    hide Holds;
    var all := parts + [t];
    assert all[|parts|] == t;
    if SomeHolds(m, parts) {
      var k :| 0 <= k < |parts| && Holds(m, parts[k]);
      assert all[k] == parts[k];
    }
  }

  lemma AllHoldConcat(m: Model, a: seq<Term>, b: seq<Term>)
    ensures AllHold(m, a + b) <==> AllHold(m, a) && AllHold(m, b)
  {
    hide Holds;
    if AllHold(m, a + b) {
      forall i | 0 <= i < |a| ensures Holds(m, a[i]) { assert (a + b)[i] == a[i]; }
      forall i | 0 <= i < |b| ensures Holds(m, b[i]) { assert (a + b)[|a| + i] == b[i]; }
    }
  }

  // ----- interning -----

  type AddressIds = map<string, nat>

  /** Ids are 1 up to the table's size, one per address; 0 stays free for the account. */
  ghost predicate Interned(ids: AddressIds) {
    && (forall a :: a in ids ==> 1 <= ids[a] <= |ids|)
    && (forall a, b :: a in ids && b in ids && ids[a] == ids[b] ==> a == b)
  }

  /** `more` agrees with `ids` wherever `ids` is defined. */
  ghost predicate Extends(more: AddressIds, ids: AddressIds) {
    forall a :: a in ids ==> a in more && more[a] == ids[a]
  }

  function Intern(ids: AddressIds, a: string): AddressIds {
    if a in ids then ids else ids[a := |ids| + 1]
  }

  function InternPred(ids: AddressIds, pred: ArgPred): AddressIds {
    if pred.AddressEq? then Intern(ids, pred.address) else ids
  }

  function InternArgs(ids: AddressIds, args: seq<ArgConstraint>): AddressIds {
    if args == [] then ids
    else InternPred(InternArgs(ids, args[..|args|-1]), args[|args|-1].pred)
  }

  predicate Knows(ids: AddressIds, pred: ArgPred) {
    pred.AddressEq? ==> pred.address in ids
  }

  predicate KnowsAll(ids: AddressIds, args: seq<ArgConstraint>) {
    forall k :: 0 <= k < |args| ==> Knows(ids, args[k].pred)
  }

  lemma InternStep(ids: AddressIds, a: string)
    requires Interned(ids)
    ensures Interned(Intern(ids, a)) && Extends(Intern(ids, a), ids) && a in Intern(ids, a)
  {
    if a !in ids { assert ids[a := |ids| + 1].Keys == ids.Keys + {a}; }
  }

  /** Interning never reuses an id and never changes an earlier one. */
  lemma {:induction false} InternArgsGrows(ids: AddressIds, args: seq<ArgConstraint>)
    requires Interned(ids)
    ensures Interned(InternArgs(ids, args)) && Extends(InternArgs(ids, args), ids)
    ensures KnowsAll(InternArgs(ids, args), args)
  {
    if args != [] {
      var init, pred := args[..|args|-1], args[|args|-1].pred;
      InternArgsGrows(ids, init);
      var mid := InternArgs(ids, init);
      if pred.AddressEq? { InternStep(mid, pred.address); }
      forall k | 0 <= k < |args| ensures Knows(InternArgs(ids, args), args[k].pred) {
        if k < |init| { assert Knows(mid, init[k].pred); }
      }
    }
  }

  /** Ids fit 32 bits as long as the constraints do. */
  lemma {:induction false} IdsFit(ids: AddressIds, args: seq<ArgConstraint>)
    ensures |InternArgs(ids, args)| <= |ids| + |args|
  {
    if args != [] {
      IdsFit(ids, args[..|args|-1]);
      var mid, pred := InternArgs(ids, args[..|args|-1]), args[|args|-1].pred;
      if pred.AddressEq? && pred.address !in mid {
        assert mid[pred.address := |mid| + 1].Keys == mid.Keys + {pred.address};
      }
    }
  }

  // ----- terms of a rule -----

  function FnAlternatives(fns: seq<string>): (r: seq<Term>)
    ensures |r| == |fns|
  {
    seq(|fns|, k requires 0 <= k < |fns| => FnNameIs(fns[k]))
  }

  /** Over-long candidates are dropped: no decodable argument equals one. */
  function TextAlternatives(i: u32, values: seq<string>): seq<Term> {
    if values == [] then []
    else
      var init := TextAlternatives(i, values[..|values|-1]);
      var v := values[|values|-1];
      if |Utf8(v)| <= MAX_STR_ARG_LEN then init + [ArgStrIs(i, v)] else init
  }

  function PredBody(ids: AddressIds, i: u32, pred: ArgPred): Term
    requires Knows(ids, pred)
  {
    match pred
    case IsSelf => And([ArgTypeIs(i, T_ADDR), ArgAddrIs(i, 0)])
    case AddressEq(a) => And([ArgTypeIs(i, T_ADDR), ArgAddrIs(i, ids[a])])
    case U32Eq(n) => And([ArgTypeIs(i, T_U32), ArgU32Is(i, n)])
    case StringIn(values) =>
      And([ArgTypeIs(i, T_STR), ArgStrLenAtMost(i, MAX_STR_ARG_LEN), Disj(TextAlternatives(i, values))])
    case StringPrefix(p) =>
      if |Utf8(p)| > MAX_STR_ARG_LEN then Bool(false)
      else And([ArgTypeIs(i, T_STR), ArgStrStartsWith(i, p)])
  }

  function PredTerm(ids: AddressIds, i: u32, pred: ArgPred): Term
    requires Knows(ids, pred)
  {
    And([ArgPresent(i), PredBody(ids, i, pred)])
  }

  function ArgConjuncts(ids: AddressIds, args: seq<ArgConstraint>): seq<Term>
    requires KnowsAll(ids, args)
  {
    if args == [] then []
    else
      var c := args[|args|-1];
      ArgConjuncts(ids, args[..|args|-1]) + [CtxContract, PredTerm(ids, c.index, c.pred)]
  }

  function EncodedFloor(p: Principals): nat {
    match p
    case AllOfThem(signers) => Max(1, |signers|)
    case Threshold(_, m) => Max(1, m)
    case SelfAuthenticating(_, _, _) => 1
  }

  function FnConjuncts(functions: Option<seq<string>>): seq<Term> {
    match functions
    case Some(fns) => [CtxContract, Disj(FnAlternatives(fns))]
    case None => []
  }

  function RuleTerm(ids: AddressIds, rule: Rule): Term
    requires KnowsAll(ids, ArgsOf(rule))
  {
    Conj([SignersAtLeast(EncodedFloor(rule.principals))] + FnConjuncts(rule.functions) +
      ArgConjuncts(ids, ArgsOf(rule)))
  }

  /** Later interning never changes an earlier term. */
  lemma {:induction false} ArgConjunctsStable(ids: AddressIds, more: AddressIds, args: seq<ArgConstraint>)
    requires KnowsAll(ids, args) && Extends(more, ids)
    ensures KnowsAll(more, args) && ArgConjuncts(more, args) == ArgConjuncts(ids, args)
  {
    if args != [] {
      var init, c := args[..|args|-1], args[|args|-1];
      forall k | 0 <= k < |init| ensures Knows(ids, init[k].pred) { assert init[k] == args[k]; }
      ArgConjunctsStable(ids, more, init);
      assert Knows(ids, c.pred);
      forall k | 0 <= k < |args| ensures Knows(more, args[k].pred) { assert Knows(ids, args[k].pred); }
    }
  }

  lemma RuleTermStable(ids: AddressIds, more: AddressIds, rule: Rule)
    requires KnowsAll(ids, ArgsOf(rule)) && Extends(more, ids)
    ensures KnowsAll(more, ArgsOf(rule)) && RuleTerm(more, rule) == RuleTerm(ids, rule)
  {
    ArgConjunctsStable(ids, more, ArgsOf(rule));
  }

  function Indexes(args: seq<ArgConstraint>): set<u32> {
    set c | c in args :: c.index
  }

  class SymbolicEncoder {
    var addrIds: AddressIds
    var argIndexes: set<u32>

    ghost predicate Valid() reads this { Interned(addrIds) }

    constructor ()
      ensures Valid() && addrIds == map[] && argIndexes == {}
    {
      addrIds := map[];
      argIndexes := {};
    }

    method AddrId(address: string) returns (id: nat)
      requires Valid()
      modifies this`addrIds
      ensures Valid() && Extends(addrIds, old(addrIds))
      ensures addrIds == Intern(old(addrIds), address) && id == addrIds[address]
    {
      InternStep(addrIds, address);
      if address in addrIds { return addrIds[address]; }
      id := |addrIds| + 1;
      addrIds := addrIds[address := id];
    }

    method PredHolds(i: u32, pred: ArgPred) returns (t: Term)
      requires Valid()
      modifies this
      ensures Valid() && Extends(addrIds, old(addrIds))
      ensures addrIds == InternPred(old(addrIds), pred) && argIndexes == old(argIndexes) + {i}
      ensures Knows(addrIds, pred) && t == PredTerm(addrIds, i, pred)
    {
      argIndexes := argIndexes + {i};
      var body: Term;
      match pred {
        case IsSelf =>
          body := And([ArgTypeIs(i, T_ADDR), ArgAddrIs(i, 0)]);
        case AddressEq(a) =>
          var id := AddrId(a);
          body := And([ArgTypeIs(i, T_ADDR), ArgAddrIs(i, id)]);
        case U32Eq(n) =>
          body := And([ArgTypeIs(i, T_U32), ArgU32Is(i, n)]);
        case StringIn(values) =>
          var alts: seq<Term> := [];
          for k := 0 to |values|
            invariant alts == TextAlternatives(i, values[..k])
          {
            assert values[..k+1][..k] == values[..k];
            if |Utf8(values[k])| <= MAX_STR_ARG_LEN { alts := alts + [ArgStrIs(i, values[k])]; }
          }
          assert values[..|values|] == values;
          body := And([ArgTypeIs(i, T_STR), ArgStrLenAtMost(i, MAX_STR_ARG_LEN), Disj(alts)]);
        case StringPrefix(p) =>
          if |Utf8(p)| > MAX_STR_ARG_LEN {
            body := Bool(false);
          } else {
            body := And([ArgTypeIs(i, T_STR), ArgStrStartsWith(i, p)]);
          }
      }
      t := And([ArgPresent(i), body]);
    }

    method EncodeArgs(args: seq<ArgConstraint>) returns (conj: seq<Term>)
      requires Valid()
      modifies this
      ensures Valid() && Extends(addrIds, old(addrIds))
      ensures addrIds == InternArgs(old(addrIds), args) && argIndexes == old(argIndexes) + Indexes(args)
      ensures KnowsAll(addrIds, args) && conj == ArgConjuncts(addrIds, args)
    {
      hide PredTerm, Interned, Intern, InternPred, Indexes;
      conj := [];
      assert Indexes([]) == {} by { IndexesEmpty(); }
      for k := 0 to |args|
        invariant Valid() && Extends(addrIds, old(addrIds))
        invariant addrIds == InternArgs(old(addrIds), args[..k])
        invariant argIndexes == old(argIndexes) + Indexes(args[..k])
        invariant KnowsAll(addrIds, args[..k]) && conj == ArgConjuncts(addrIds, args[..k])
      {
        ghost var before := addrIds;
        var p := PredHolds(args[k].index, args[k].pred);
        assert args[..k+1] == args[..k] + [args[k]];
        ArgConjunctsStable(before, addrIds, args[..k]);
        ArgConjunctsAppend(addrIds, args[..k], args[k]);
        IndexesAppend(args[..k], args[k]);
        conj := conj + [CtxContract, p];
        assert args[..k+1][..k] == args[..k];
      }
      assert args[..|args|] == args;
    }

    method RuleAllows(rule: Rule) returns (t: Term)
      requires Valid()
      modifies this
      ensures Valid() && Extends(addrIds, old(addrIds))
      ensures addrIds == InternArgs(old(addrIds), ArgsOf(rule))
      ensures argIndexes == old(argIndexes) + Indexes(ArgsOf(rule))
      ensures KnowsAll(addrIds, ArgsOf(rule)) && t == RuleTerm(addrIds, rule)
    {
      hide Interned, InternArgs, Indexes;
      var conj := [SignersAtLeast(EncodedFloor(rule.principals))];
      if rule.functions.Some? {
        conj := conj + [CtxContract, Disj(FnAlternatives(rule.functions.value))];
      }
      assert conj == [SignersAtLeast(EncodedFloor(rule.principals))] + FnConjuncts(rule.functions);
      var more := EncodeArgs(ArgsOf(rule));
      return Conj(conj + more);
    }
  }

  lemma ArgConjunctsAppend(ids: AddressIds, args: seq<ArgConstraint>, c: ArgConstraint)
    requires KnowsAll(ids, args) && Knows(ids, c.pred)
    ensures KnowsAll(ids, args + [c])
    ensures ArgConjuncts(ids, args + [c]) == ArgConjuncts(ids, args) + [CtxContract, PredTerm(ids, c.index, c.pred)]
  {
    hide PredTerm;
    assert (args + [c])[..|args|] == args;
  }

  lemma IndexesEmpty()
    ensures Indexes([]) == {}
  {
  }

  lemma IndexesAppend(args: seq<ArgConstraint>, c: ArgConstraint)
    ensures Indexes(args + [c]) == Indexes(args) + {c.index}
  {
  }
}
