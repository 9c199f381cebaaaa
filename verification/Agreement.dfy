/** The encoder and the evaluator agree: a rule's term holds in an invocation's symbolic
    model exactly when the rule's program allows the invocation. */
module Agreement {
  import opened Base
  import opened Text
  import opened Program
  import opened Doc
  import opened Compile
  import opened Lowering
  import opened Encoder

  // ----- when a model stands for an invocation -----

  /** The text is one of the values a decodable argument can equal. */
  ghost predicate ListsText(values: seq<string>, text: string) {
    exists k :: 0 <= k < |values| && values[k] == text && |Utf8(values[k])| <= MAX_STR_ARG_LEN
  }

  /** The string variable answers the predicate as the argument's bytes do. */
  ghost predicate TextMirrors(text: string, bytes: seq<byte>, pred: ArgPred) {
    match pred
    case StringIn(values) =>
      ListsText(values, text) <==>
      (|bytes| <= MAX_STR_ARG_LEN && exists k :: 0 <= k < |values| && Utf8(values[k]) == bytes)
    case StringPrefix(p) => p <= text <==> Utf8(p) <= bytes
    case _ => true
  }

  /** The address variable tells the account and the predicate's literal from the rest. */
  ghost predicate AddressMirrors(id: int, a: Address, self: Address, ids: AddressIds, pred: ArgPred) {
    && (id == 0 <==> a == self)
    && (pred.AddressEq? && pred.address in ids ==> (id == ids[pred.address] <==> a == pred.address))
  }

  ghost predicate VarsMirror(v: ArgVars, val: Val, self: Address, ids: AddressIds, pred: ArgPred) {
    match val
    case AddressVal(a) => v.tag == T_ADDR && AddressMirrors(v.addr, a, self, ids, pred)
    case U32Val(n) => v.tag == T_U32 && v.u32 == n
    case StringVal(s) => v.tag == T_STR && TextMirrors(v.text, s, pred)
    case _ => v.tag == T_OTHER
  }

  ghost predicate ArgMirrors(m: Model, inp: EvalInputs, ids: AddressIds, c: ArgConstraint) {
    inp.context.ContractCall? ==>
      && c.index in m.args
      && (c.index < m.argCount <==> c.index < |inp.context.args|)
      && (c.index < |inp.context.args| ==>
            VarsMirror(m.args[c.index], inp.context.args[c.index], inp.selfAddr, ids, c.pred))
  }

  ghost predicate Mirrors(m: Model, inp: EvalInputs, ids: AddressIds, rule: Rule) {
    && (m.signerCount >= EncodedFloor(rule.principals) <==> inp.signerCount >= EncodedFloor(rule.principals))
    && m.ctxContract == inp.context.ContractCall?
    && (inp.context.ContractCall? ==> m.fnName == inp.context.fnName)
    && (forall k :: 0 <= k < |ArgsOf(rule)| ==> ArgMirrors(m, inp, ids, ArgsOf(rule)[k]))
  }

  // ----- agreement -----

  lemma ListsTextSnoc(values: seq<string>, v: string, text: string)
    ensures ListsText(values + [v], text) <==> ListsText(values, text) || (v == text && |Utf8(v)| <= MAX_STR_ARG_LEN)
  {
    var all := values + [v];
    assert all[|values|] == v;
    if ListsText(values, text) {
      var k :| 0 <= k < |values| && values[k] == text && |Utf8(values[k])| <= MAX_STR_ARG_LEN;
      assert all[k] == values[k];
    }
  }

  lemma {:induction false} TextAlternativesHold(m: Model, i: u32, values: seq<string>)
    requires i in m.args
    ensures SomeHolds(m, TextAlternatives(i, values)) <==> ListsText(values, m.args[i].text)
  {
    if values != [] {
      hide ListsText, SomeHolds;
      var init, v := values[..|values|-1], values[|values|-1];
      TextAlternativesHold(m, i, init);
      assert values == init + [v];
      ListsTextSnoc(init, v, m.args[i].text);
      SomeHoldsSnoc(m, TextAlternatives(i, init), ArgStrIs(i, v));
    }
  }

  lemma AndOfTwo(m: Model, a: Term, b: Term)
    ensures Holds(m, And([a, b])) <==> Holds(m, a) && Holds(m, b)
  {
    var parts := [a, b];
    assert parts[0] == a && parts[1] == b;
  }

  lemma AndOfThree(m: Model, a: Term, b: Term, c: Term)
    ensures Holds(m, And([a, b, c])) <==> Holds(m, a) && Holds(m, b) && Holds(m, c)
  {
    var parts := [a, b, c];
    assert parts[0] == a && parts[1] == b && parts[2] == c;
  }

  lemma ListedTextFits(values: seq<string>, text: string)
    requires ListsText(values, text)
    ensures |text| <= MAX_STR_ARG_LEN
  {
    var k :| 0 <= k < |values| && values[k] == text && |Utf8(values[k])| <= MAX_STR_ARG_LEN;
    assert |Utf8(values[k])| >= |values[k]|;
  }

  lemma StringInHolds(m: Model, i: u32, values: seq<string>, ids: AddressIds)
    requires i in m.args
    ensures Holds(m, PredBody(ids, i, StringIn(values))) <==>
            m.args[i].tag == T_STR && ListsText(values, m.args[i].text)
  {
    hide ListsText, SomeHolds, Disj, TextAlternatives;
    var alts, text := TextAlternatives(i, values), m.args[i].text;
    var a, b, c := ArgTypeIs(i, T_STR), ArgStrLenAtMost(i, MAX_STR_ARG_LEN), Disj(alts);
    AndOfThree(m, a, b, c);
    assert Holds(m, a) <==> m.args[i].tag == T_STR;
    assert Holds(m, b) <==> |text| <= MAX_STR_ARG_LEN;
    assert Holds(m, c) <==> ListsText(values, text) by {
      DisjHolds(m, alts);
      TextAlternativesHold(m, i, values);
    }
    if ListsText(values, text) { ListedTextFits(values, text); }
  }

  lemma PredBodyHolds(m: Model, inp: EvalInputs, ids: AddressIds, c: ArgConstraint)
    requires Knows(ids, c.pred) && inp.context.ContractCall? && c.index < |inp.context.args|
    requires ArgMirrors(m, inp, ids, c)
    ensures Holds(m, PredBody(ids, c.index, c.pred)) <==> ArgHolds(inp, c)
  {
    hide TextAlternatives, Utf8, Disj, TextMirrors;
    var i := c.index;
    match c.pred
    case IsSelf => AndOfTwo(m, ArgTypeIs(i, T_ADDR), ArgAddrIs(i, 0));
    case AddressEq(a) => AndOfTwo(m, ArgTypeIs(i, T_ADDR), ArgAddrIs(i, ids[a]));
    case U32Eq(n) => AndOfTwo(m, ArgTypeIs(i, T_U32), ArgU32Is(i, n));
    case _ => TextPredHolds(m, inp, ids, c);
  }

  lemma TextPredHolds(m: Model, inp: EvalInputs, ids: AddressIds, c: ArgConstraint)
    requires c.pred.StringIn? || c.pred.StringPrefix?
    requires inp.context.ContractCall? && c.index < |inp.context.args| && ArgMirrors(m, inp, ids, c)
    ensures Holds(m, PredBody(ids, c.index, c.pred)) <==> ArgHolds(inp, c)
  {
    hide TextAlternatives, Utf8, Disj;
    match c.pred
    case StringIn(values) => StringInHolds(m, c.index, values, ids);
    case StringPrefix(p) => AndOfTwo(m, ArgTypeIs(c.index, T_STR), ArgStrStartsWith(c.index, p));
  }

  lemma PredTermHolds(m: Model, inp: EvalInputs, ids: AddressIds, c: ArgConstraint)
    requires Knows(ids, c.pred) && inp.context.ContractCall? && ArgMirrors(m, inp, ids, c)
    ensures Holds(m, PredTerm(ids, c.index, c.pred)) <==> ArgHolds(inp, c)
  {
    hide PredBody;
    AndOfTwo(m, ArgPresent(c.index), PredBody(ids, c.index, c.pred));
    if c.index < |inp.context.args| { PredBodyHolds(m, inp, ids, c); }
  }

  lemma {:induction false} ArgConjunctsHold(m: Model, inp: EvalInputs, ids: AddressIds, args: seq<ArgConstraint>)
    requires KnowsAll(ids, args) && m.ctxContract == inp.context.ContractCall?
    requires forall k :: 0 <= k < |args| ==> ArgMirrors(m, inp, ids, args[k])
    ensures AllHold(m, ArgConjuncts(ids, args)) <==> ArgsHold(inp, args)
  {
    hide PredTerm, ArgMirrors, ArgHolds;
    if args != [] {
      var init, c := args[..|args|-1], args[|args|-1];
      assert forall k :: 0 <= k < |init| ==> init[k] == args[k];
      assert forall k :: 0 <= k < |init| ==> Knows(ids, init[k].pred) by {
        forall k | 0 <= k < |init| ensures Knows(ids, init[k].pred) { assert Knows(ids, args[k].pred); }
      }
      ArgConjunctsHold(m, inp, ids, init);
      var pair := [CtxContract, PredTerm(ids, c.index, c.pred)];
      AllHoldConcat(m, ArgConjuncts(ids, init), pair);
      assert AllHold(m, pair) <==> m.ctxContract && Holds(m, PredTerm(ids, c.index, c.pred)) by {
        assert pair[0] == CtxContract && pair[1] == PredTerm(ids, c.index, c.pred);
      }
      assert AllHold(m, pair) <==> ArgHolds(inp, c) by {
        if inp.context.ContractCall? { PredTermHolds(m, inp, ids, c); } else { NoArguments(inp, c); }
      }
      assert ArgsHold(inp, args) <==> ArgsHold(inp, init) && ArgHolds(inp, c);
    }
  }

  lemma NoArguments(inp: EvalInputs, c: ArgConstraint)
    requires !inp.context.ContractCall?
    ensures !ArgHolds(inp, c)
  {
  }

  lemma FnConjunctsHold(m: Model, inp: EvalInputs, functions: Option<seq<string>>)
    requires m.ctxContract == inp.context.ContractCall?
    requires inp.context.ContractCall? ==> m.fnName == inp.context.fnName
    ensures AllHold(m, FnConjuncts(functions)) <==> FunctionHolds(inp, functions)
  {
    if functions.Some? {
      var fns, alts, pair := functions.value, FnAlternatives(functions.value), FnConjuncts(functions);
      assert pair[0] == CtxContract && pair[1] == Disj(alts);
      DisjHolds(m, alts);
      assert SomeHolds(m, alts) <==> m.fnName in fns by {
        assert forall k :: 0 <= k < |alts| ==> (Holds(m, alts[k]) <==> m.fnName == fns[k]);
      }
    }
  }

  /** Every model that mirrors the invocation gives the rule's term the rule's meaning. */
  lemma RuleTermHolds(m: Model, inp: EvalInputs, ids: AddressIds, rule: Rule)
    requires Countable(rule) && !rule.principals.SelfAuthenticating?
    requires KnowsAll(ids, ArgsOf(rule)) && Mirrors(m, inp, ids, rule)
    ensures Holds(m, RuleTerm(ids, rule)) <==> RuleAllows(inp, rule)
  {
    hide ArgMirrors, ArgsHold, FunctionHolds, FnConjuncts, ArgConjuncts;
    var floor := [SignersAtLeast(EncodedFloor(rule.principals))];
    var fns, args := FnConjuncts(rule.functions), ArgConjuncts(ids, ArgsOf(rule));
    ConjHolds(m, floor + fns + args);
    AllHoldConcat(m, floor + fns, args);
    AllHoldConcat(m, floor, fns);
    assert AllHold(m, floor) <==> inp.signerCount >= EncodedFloor(rule.principals) by {
      assert floor[0] == SignersAtLeast(EncodedFloor(rule.principals));
    }
    FnConjunctsHold(m, inp, rule.functions);
    ArgConjunctsHold(m, inp, ids, ArgsOf(rule));
  }

  // ----- a text for every string argument -----

  ghost predicate IsText(bytes: seq<byte>) {
    exists s: string :: Utf8(s) == bytes
  }

  ghost function TextOf(bytes: seq<byte>): (s: string)
    requires IsText(bytes)
    ensures Utf8(s) == bytes
  {
    var s: string :| Utf8(s) == bytes;
    s
  }

  lemma TextOfMirrors(s: string, pred: ArgPred)
    ensures TextMirrors(s, Utf8(s), pred)
  {
    match pred
    case StringIn(values) =>
      forall k | 0 <= k < |values| ensures Utf8(values[k]) == Utf8(s) <==> values[k] == s {
        Utf8Injective(values[k], s);
      }
    case StringPrefix(p) => Utf8Prefix(p, s);
    case _ =>
  }

  /** The longest text whose encoding starts the bytes. */
  ghost function LongestText(bytes: seq<byte>, t: string): (r: string)
    requires Utf8(t) <= bytes
    ensures Utf8(r) <= bytes && forall c: char :: !(Utf8(r + [c]) <= bytes)
    decreases |bytes| - |t|
  {
    if c: char :| Utf8(t + [c]) <= bytes then LongestText(bytes, t + [c]) else t
  }

  lemma LongestIsPrefixBound(bytes: seq<byte>, t: string, p: string)
    requires Utf8(t) <= bytes && forall c: char :: !(Utf8(t + [c]) <= bytes)
    ensures Utf8(p) <= bytes <==> p <= t
  {
    Utf8Prefix(p, t);
    if Utf8(p) <= bytes && !(p <= t) {
      Utf8Prefix(t, p);
      NextChar(t, p);
      Utf8Prefix(t + [p[|t|]], p);
      assert false;
    }
  }

  lemma NextChar(t: string, p: string)
    requires t <= p && |t| < |p|
    ensures t + [p[|t|]] <= p
  {
  }

  function Repeat(c: char, n: nat): string {
    seq(n, _ => c)
  }

  /** A prefix of repeated padding stops before it or starts it. */
  lemma PaddedPrefix(p: string, t: string, c: char, n: nat)
    ensures p <= t ==> p <= t + Repeat(c, n)
    ensures p <= t + Repeat(c, n) ==> p <= t || (|p| > |t| && p[|t|] == c)
  {
    if p <= t + Repeat(c, n) && |p| > |t| { assert p[|t|] == (t + Repeat(c, n))[|t|] == c; }
  }

  function LongestLength(values: seq<string>): (n: nat)
    ensures forall k :: 0 <= k < |values| ==> |values[k]| <= n
  {
    if values == [] then 0
    else
      assert forall k :: 0 <= k < |values| - 1 ==> values[k] == values[..|values|-1][k];
      Max(|values[|values|-1]|, LongestLength(values[..|values|-1]))
  }

  function LiteralLength(pred: ArgPred): nat {
    if pred.StringIn? then LongestLength(pred.values) else 0
  }

  function LongestLiteral(cs: seq<ArgConstraint>): (n: nat)
    ensures forall k :: 0 <= k < |cs| ==> LiteralLength(cs[k].pred) <= n
  {
    if cs == [] then 0
    else
      assert forall k :: 0 <= k < |cs| - 1 ==> cs[k] == cs[..|cs|-1][k];
      Max(LiteralLength(cs[|cs|-1].pred), LongestLiteral(cs[..|cs|-1]))
  }

  /** A stand-in for bytes that are not text: past the longest text, a repeated character
      that the predicate's prefix does not continue with. */
  lemma StandIn(bytes: seq<byte>, t: string, c: char, n: nat, pred: ArgPred)
    requires !IsText(bytes)
    requires Utf8(t) <= bytes && forall d: char :: !(Utf8(t + [d]) <= bytes)
    requires n > LiteralLength(pred)
    requires pred.StringPrefix? && |pred.prefix| > |t| ==> pred.prefix[|t|] != c
    ensures TextMirrors(t + Repeat(c, n), bytes, pred)
  {
    hide Utf8, Repeat;
    match pred
    case StringIn(values) =>
      PaddedLength(t, c, n);
      UnlistedText(bytes, values, t + Repeat(c, n));
    case StringPrefix(p) =>
      LongestIsPrefixBound(bytes, t, p);
      PaddedPrefix(p, t, c, n);
    case _ =>
  }

  lemma PaddedLength(t: string, c: char, n: nat)
    ensures |t + Repeat(c, n)| == |t| + n
  {
  }

  /** A text longer than every value is listed no more than bytes that are not text. */
  lemma UnlistedText(bytes: seq<byte>, values: seq<string>, text: string)
    requires !IsText(bytes) && |text| > LongestLength(values)
    ensures TextMirrors(text, bytes, StringIn(values))
  {
    hide Utf8, LongestLength;
  }

  // Fewer constraints than there are characters below the surrogates leave one free.
  const MANY := 0xD800

  /** The characters that the constraints' prefixes have at position `n`. */
  function Continuations(cs: seq<ArgConstraint>, n: nat): set<char> {
    if cs == [] then {}
    else
      var p := cs[|cs|-1].pred;
      Continuations(cs[..|cs|-1], n) + if p.StringPrefix? && |p.prefix| > n then {p.prefix[n]} else {}
  }

  lemma {:induction false} ContinuationsBound(cs: seq<ArgConstraint>, n: nat)
    ensures |Continuations(cs, n)| <= |cs|
    ensures forall k :: 0 <= k < |cs| && cs[k].pred.StringPrefix? && |cs[k].pred.prefix| > n ==>
              cs[k].pred.prefix[n] in Continuations(cs, n)
  {
    if cs != [] {
      ContinuationsBound(cs[..|cs|-1], n);
      assert forall k :: 0 <= k < |cs| - 1 ==> cs[k] == cs[..|cs|-1][k];
    }
  }

  function FirstChars(n: nat): (r: set<char>)
    requires n <= MANY
    ensures |r| == n && forall c :: c in r ==> c as int < n
  {
    if n == 0 then {} else FirstChars(n - 1) + {(n - 1) as char}
  }

  lemma {:induction false} SubsetCount<T>(a: set<T>, b: set<T>)
    requires a <= b
    ensures |a| <= |b|
  {
    if a != {} {
      var x :| x in a;
      SubsetCount(a - {x}, b - {x});
    }
  }

  lemma FreeChar(used: set<char>) returns (c: char)
    requires |used| < MANY
    ensures c !in used
  {
    var some := FirstChars(|used| + 1);
    if some <= used { SubsetCount(some, used); }
    c :| c in some && c !in used;
  }

  /** The text answers every one of the predicates as the bytes do. */
  ghost predicate StandsIn(text: string, bytes: seq<byte>, cs: seq<ArgConstraint>) {
    forall k :: 0 <= k < |cs| ==> TextMirrors(text, bytes, cs[k].pred)
  }

  /** Any bytes, text or not, have a text that answers all the predicates as they do. */
  lemma StandInExists(bytes: seq<byte>, cs: seq<ArgConstraint>) returns (text: string)
    requires |cs| < MANY
    ensures StandsIn(text, bytes, cs)
    ensures IsText(bytes) ==> Utf8(text) == bytes
  {
    hide TextMirrors;
    if IsText(bytes) {
      text := TextOf(bytes);
      forall k | 0 <= k < |cs| ensures TextMirrors(text, bytes, cs[k].pred) {
        TextOfMirrors(text, cs[k].pred);
      }
    } else {
      var t := LongestText(bytes, "");
      ContinuationsBound(cs, |t|);
      var c := FreeChar(Continuations(cs, |t|));
      var n := 1 + LongestLiteral(cs);
      text := t + Repeat(c, n);
      forall k | 0 <= k < |cs| ensures TextMirrors(text, bytes, cs[k].pred) {
        StandIn(bytes, t, c, n, cs[k].pred);
      }
    }
  }

  lemma SomeStandIn(bytes: seq<byte>, cs: seq<ArgConstraint>)
    requires |cs| < MANY
    ensures exists text: string :: StandsIn(text, bytes, cs) && (IsText(bytes) ==> Utf8(text) == bytes)
  {
    var text := StandInExists(bytes, cs);
  }

  ghost function ArgText(bytes: seq<byte>, cs: seq<ArgConstraint>): (text: string)
    requires |cs| < MANY
    ensures StandsIn(text, bytes, cs)
    ensures IsText(bytes) ==> Utf8(text) == bytes
  {
    SomeStandIn(bytes, cs);
    var text: string :| StandsIn(text, bytes, cs) && (IsText(bytes) ==> Utf8(text) == bytes);
    text
  }

  // ----- the symbolic model of an invocation -----

  function AddressVar(a: Address, self: Address, ids: AddressIds): nat {
    if a == self then 0 else if a in ids then ids[a] else |ids| + 1
  }

  /** The variables of an argument. A string is read as its text; bytes that are no text,
      as a text that the constraints cannot tell from them. */
  ghost function VarsOf(val: Val, self: Address, ids: AddressIds, cs: seq<ArgConstraint>): ArgVars
    requires |cs| < MANY
  {
    match val
    case AddressVal(a) => ArgVars(T_ADDR, AddressVar(a, self, ids), 0, "")
    case U32Val(n) => ArgVars(T_U32, 0, n, "")
    case StringVal(s) => ArgVars(T_STR, 0, 0, ArgText(s, cs))
    case _ => ArgVars(T_OTHER, 0, 0, "")
  }

  ghost function ModelOf(inp: EvalInputs, ids: AddressIds, cs: seq<ArgConstraint>): Model
    requires |cs| < MANY
  {
    Model(
      inp.context.ContractCall?,
      if inp.context.ContractCall? then inp.context.fnName else "",
      inp.signerCount,
      if inp.context.ContractCall? then |inp.context.args| else 0,
      map i | i in Indexes(cs) ::
        VarsOf(if Arg(inp, i).Some? then Arg(inp, i).value else OtherVal, inp.selfAddr, ids, cs))
  }

  /** The rule names no address literal equal to the account's own address. */
  predicate Foreign(self: Address, rule: Rule) {
    forall k :: 0 <= k < |ArgsOf(rule)| ==> ArgsOf(rule)[k].pred != AddressEq(self)
  }

  lemma AddressVarMirrors(a: Address, self: Address, ids: AddressIds, pred: ArgPred)
    requires Interned(ids) && pred != AddressEq(self)
    ensures AddressMirrors(AddressVar(a, self, ids), a, self, ids, pred)
  {
  }

  /** Every invocation of a foreign account, its strings text or not, is mirrored by its
      model for all rules whose constraints the model was made for. */
  lemma ModelMirrors(inp: EvalInputs, ids: AddressIds, cs: seq<ArgConstraint>, rule: Rule)
    requires Interned(ids) && Foreign(inp.selfAddr, rule) && |cs| < MANY
    requires forall k :: 0 <= k < |ArgsOf(rule)| ==> ArgsOf(rule)[k] in cs
    ensures Mirrors(ModelOf(inp, ids, cs), inp, ids, rule)
    ensures WellSorted(ModelOf(inp, ids, cs), Indexes(cs))
  {
    hide TextMirrors, AddressMirrors, AddressVar, Interned, ArgText, WellSorted;
    ModelSorted(inp, ids, cs);
    var m, args := ModelOf(inp, ids, cs), ArgsOf(rule);
    forall k | 0 <= k < |args| ensures ArgMirrors(m, inp, ids, args[k]) {
      var c := args[k];
      assert c in cs && c.index in Indexes(cs);
      if inp.context.ContractCall? && c.index < |inp.context.args| {
        match inp.context.args[c.index] {
          case AddressVal(a) => AddressVarMirrors(a, inp.selfAddr, ids, c.pred);
          case StringVal(s) => TextMirrorsEach(s, cs, c);
          case _ =>
        }
      }
    }
  }

  lemma TextMirrorsEach(s: seq<byte>, cs: seq<ArgConstraint>, c: ArgConstraint)
    requires |cs| < MANY && c in cs
    ensures TextMirrors(ArgText(s, cs), s, c.pred)
  {
    hide TextMirrors, ArgText;
    var k :| 0 <= k < |cs| && cs[k] == c;
  }

  // ----- what a term needs -----

  lemma BodyNeeds(m: Model, ids: AddressIds, c: ArgConstraint)
    requires Knows(ids, c.pred) && Holds(m, PredTerm(ids, c.index, c.pred))
    ensures c.pred.IsSelf? ==> c.index in m.args && m.args[c.index].addr == 0
    ensures c.pred.AddressEq? ==> c.index in m.args && m.args[c.index].addr == ids[c.pred.address]
  {
    AndOfTwo(m, ArgPresent(c.index), PredBody(ids, c.index, c.pred));
    match c.pred
    case IsSelf => AndOfTwo(m, ArgTypeIs(c.index, T_ADDR), ArgAddrIs(c.index, 0));
    case AddressEq(a) => AndOfTwo(m, ArgTypeIs(c.index, T_ADDR), ArgAddrIs(c.index, ids[a]));
    case _ =>
  }

  lemma TermNeedsPred(m: Model, ids: AddressIds, rule: Rule, k: nat)
    requires KnowsAll(ids, ArgsOf(rule)) && Holds(m, RuleTerm(ids, rule)) && k < |ArgsOf(rule)|
    ensures Knows(ids, ArgsOf(rule)[k].pred) && Holds(m, PredTerm(ids, ArgsOf(rule)[k].index, ArgsOf(rule)[k].pred))
  {
    hide PredTerm, ArgConjuncts, Holds;
    var floor := [SignersAtLeast(EncodedFloor(rule.principals))];
    var fns, args := FnConjuncts(rule.functions), ArgConjuncts(ids, ArgsOf(rule));
    ConjHolds(m, floor + fns + args);
    AllHoldConcat(m, floor + fns, args);
    ConjunctsNeedPred(m, ids, ArgsOf(rule), k);
  }

  lemma {:induction false} ConjunctsNeedPred(m: Model, ids: AddressIds, args: seq<ArgConstraint>, k: nat)
    requires KnowsAll(ids, args) && AllHold(m, ArgConjuncts(ids, args)) && k < |args|
    ensures Knows(ids, args[k].pred) && Holds(m, PredTerm(ids, args[k].index, args[k].pred))
  {
    hide PredTerm, Holds;
    var init, c := args[..|args|-1], args[|args|-1];
    forall j | 0 <= j < |init| ensures Knows(ids, init[j].pred) { assert init[j] == args[j]; }
    assert Knows(ids, c.pred);
    var pair := [CtxContract, PredTerm(ids, c.index, c.pred)];
    AllHoldConcat(m, ArgConjuncts(ids, init), pair);
    if k == |init| { assert pair[1] == PredTerm(ids, c.index, c.pred); } else { ConjunctsNeedPred(m, ids, init, k); }
  }

  /** In the model of an invocation no address variable is the id of the own address. */
  lemma OwnIdUnused(inp: EvalInputs, ids: AddressIds, cs: seq<ArgConstraint>, i: u32)
    requires Interned(ids) && |cs| < MANY && inp.selfAddr in ids
    ensures i in ModelOf(inp, ids, cs).args ==> ModelOf(inp, ids, cs).args[i].addr != ids[inp.selfAddr]
  {
    hide ArgText;
  }

  /** To the encoder, a rule with the own address as a literal allows nothing. */
  lemma OwnLiteralFails(inp: EvalInputs, ids: AddressIds, cs: seq<ArgConstraint>, rule: Rule)
    requires Interned(ids) && KnowsAll(ids, ArgsOf(rule)) && |cs| < MANY && !Foreign(inp.selfAddr, rule)
    ensures !Holds(ModelOf(inp, ids, cs), RuleTerm(ids, rule))
  {
    hide ModelOf, RuleTerm, Interned, Holds;
    var m := ModelOf(inp, ids, cs);
    if Holds(m, RuleTerm(ids, rule)) {
      var k :| 0 <= k < |ArgsOf(rule)| && ArgsOf(rule)[k].pred == AddressEq(inp.selfAddr);
      var c := ArgsOf(rule)[k];
      TermNeedsPred(m, ids, rule, k);
      BodyNeeds(m, ids, c);
      assert Knows(ids, c.pred);
      OwnIdUnused(inp, ids, cs, c.index);
    }
  }

  lemma ModelSorted(inp: EvalInputs, ids: AddressIds, cs: seq<ArgConstraint>)
    requires |cs| < MANY
    ensures WellSorted(ModelOf(inp, ids, cs), Indexes(cs))
  {
    hide ArgText;
  }

  /** Four readings agree: for every rule that lowers and every invocation, the encoder's
      term holds in the invocation's symbolic model exactly when the machine allows and the
      account's own address is none of the rule's literals. The model may serve any number
      of other constraints at once, up to the character set's size. */
  lemma EncoderAgrees(inp: EvalInputs, ids: AddressIds, cs: seq<ArgConstraint>, rule: Rule)
    requires Countable(rule) && !rule.principals.SelfAuthenticating?
    requires ProgramOf(rule, SignerFloor(rule)).Ok?
    requires Interned(ids) && KnowsAll(ids, ArgsOf(rule)) && |cs| < MANY
    requires forall k :: 0 <= k < |ArgsOf(rule)| ==> ArgsOf(rule)[k] in cs
    ensures WellSorted(ModelOf(inp, ids, cs), Indexes(cs))
    ensures Holds(ModelOf(inp, ids, cs), RuleTerm(ids, rule)) <==>
            OpsVerdict(inp, ProgramOf(rule, SignerFloor(rule)).value.ops) == True && Foreign(inp.selfAddr, rule)
  {
    hide RuleAllows, RuleTerm, OpsVerdict, Mirrors, WellSorted, Holds, ModelOf, Foreign;
    ModelSorted(inp, ids, cs);
    if Foreign(inp.selfAddr, rule) {
      ModelMirrors(inp, ids, cs, rule);
      RuleTermHolds(ModelOf(inp, ids, cs), inp, ids, rule);
      ProgramMeaning(inp, rule);
    } else {
      OwnLiteralFails(inp, ids, cs, rule);
    }
  }

  // ----- an invocation for a model -----

  ghost function LongestIn(keys: set<string>): (n: nat)
    ensures forall s :: s in keys ==> |s| <= n
  {
    if keys == {} then 0
    else
      var s :| s in keys;
      Max(|s|, LongestIn(keys - {s}))
  }

  ghost function FreshAddress(keys: set<string>): (a: Address)
    ensures a !in keys
  {
    Repeat('x', LongestIn(keys) + 1)
  }

  ghost function AddressFor(id: int, ids: AddressIds, self: Address, other: Address): Address {
    if id == 0 then self else if a :| a in ids && ids[a] == id then a else other
  }

  ghost function ValFor(v: ArgVars, ids: AddressIds, self: Address, other: Address): Val {
    if v.tag == T_ADDR then AddressVal(AddressFor(v.addr, ids, self, other))
    else if v.tag == T_U32 && 0 <= v.u32 <= U32_MAX then U32Val(v.u32)
    else if v.tag == T_STR then StringVal(Utf8(v.text))
    else OtherVal
  }

  function Clamp(n: int): u32 {
    if n < 0 then 0 else if n > U32_MAX then U32_MAX else n
  }

  ghost function InvocationOf(m: Model, ids: AddressIds): EvalInputs {
    var self := FreshAddress(ids.Keys);
    var other := FreshAddress(ids.Keys + {self});
    var n := Clamp(m.argCount);
    var args := seq(n, i requires 0 <= i < n => if i in m.args then ValFor(m.args[i], ids, self, other) else OtherVal);
    EvalInputs(if m.ctxContract then ContractCall(m.fnName, args) else OtherContext, Clamp(m.signerCount), self, 0)
  }

  lemma ValForMirrors(v: ArgVars, ids: AddressIds, self: Address, other: Address, pred: ArgPred)
    requires Interned(ids) && self !in ids && other !in ids && self != other
    requires 0 <= v.tag <= T_OTHER && 0 <= v.u32 <= U32_MAX
    requires Knows(ids, pred)
    ensures VarsMirror(v, ValFor(v, ids, self, other), self, ids, pred)
  {
    TextOfMirrors(v.text, pred);
  }

  /** The encoding admits no phantom: every well-sorted model mirrors a real invocation of
      some account, as long as no predicate inspects the one position no call can have. */
  lemma InvocationMirrors(m: Model, ids: AddressIds, indexes: set<u32>, rule: Rule)
    requires Interned(ids) && KnowsAll(ids, ArgsOf(rule)) && Countable(rule)
    requires WellSorted(m, indexes) && Indexes(ArgsOf(rule)) <= indexes
    requires U32_MAX !in Indexes(ArgsOf(rule))
    ensures Mirrors(m, InvocationOf(m, ids), ids, rule)
    ensures Foreign(InvocationOf(m, ids).selfAddr, rule)
  {
    hide VarsMirror, Interned, LongestIn, FreshAddress, ValFor;
    var inp, args := InvocationOf(m, ids), ArgsOf(rule);
    var self := FreshAddress(ids.Keys);
    var other := FreshAddress(ids.Keys + {self});
    forall k | 0 <= k < |args| ensures ArgMirrors(m, inp, ids, args[k]) && args[k].pred != AddressEq(inp.selfAddr) {
      assert args[k] in args && Knows(ids, args[k].pred);
      ValForMirrors(m.args[args[k].index], ids, self, other, args[k].pred);
    }
  }
}
