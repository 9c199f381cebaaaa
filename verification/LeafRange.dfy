/** Which verdicts a leaf can take (crates/perch-compile/src/analysis.rs): exactly, for every
    leaf, against the intervals the analysis works with. */
module LeafRange {
  import opened Base
  import opened Program
  import opened Analysis
  import Agreement
  import Wire

  /** A host vector has a 32-bit length. */
  predicate Fits(p: Predicate) {
    p.ArgStrIn? ==> |p.choices| <= U32_MAX
  }

  /** The leaf reads the argument at a position. */
  predicate ReadsArg(p: Predicate) {
    !(p.MinSigners? || p.FnIn? || p.ArgCount? || p.LedgerBefore? || p.LedgerAtOrAfter?)
  }

  predicate CanBeTrue(p: Predicate) {
    match p
    case FnIn(fns) => fns != []
    case LedgerBefore(n) => n > 0
    case MinSigners(_) => true
    case ArgCount(_) => true
    case LedgerAtOrAfter(_) => true
    case ArgStrIn(i, choices) => i < U32_MAX && exists k :: 0 <= k < |choices| && |choices[k]| <= MAX_STR_ARG_LEN
    case ArgStrPrefix(i, prefix) => i < U32_MAX && |prefix| <= MAX_STR_ARG_LEN
    case _ => p.index < U32_MAX
  }

  predicate CanBeFalse(p: Predicate) {
    match p
    case MinSigners(n) => n > 0
    case LedgerAtOrAfter(n) => n > 0
    case FnIn(_) => true
    case ArgCount(_) => true
    case LedgerBefore(_) => true
    case ArgStrPrefix(i, prefix) => i < U32_MAX && 0 < |prefix| <= MAX_STR_ARG_LEN
    case _ => p.index < U32_MAX
  }

  predicate CanBe(p: Predicate, v: Verdict) {
    match v
    case True => CanBeTrue(p)
    case False => CanBeFalse(p)
    case Unknown => ReadsArg(p) || p.FnIn? || p.ArgCount?
  }

  /** A call with `n` equal arguments. */
  function CallWith(fnName: Symbol, n: u32, val: Val): EvalInputs {
    EvalInputs(ContractCall(fnName, seq(n, _ => val)), 0, "", 0)
  }

  lemma ArgOfCall(fnName: Symbol, i: u32, val: Val)
    requires i < U32_MAX
    ensures Arg(CallWith(fnName, i + 1, val), i) == Some(val)
  {
  }

  // ----- a string outside a list -----

  lemma {:induction false} FreeBelow(used: set<int>, n: nat) returns (k: nat)
    requires |used| < n
    ensures k < n && k !in used
  {
    k := n - 1;
    if k in used { k := FreeBelow(used - {k}, n - 1); }
  }

  function Words(choices: seq<seq<byte>>): set<int> {
    set c | c in choices && |c| == 4 :: Wire.Word4(c)
  }

  lemma {:induction false} WordsCount(choices: seq<seq<byte>>)
    ensures |Words(choices)| <= |choices|
  {
    hide Wire.Word4;
    if choices == [] {
      assert Words(choices) == {};
    } else {
      var init, c := choices[..|choices|-1], choices[|choices|-1];
      WordsCount(init);
      assert choices == init + [c];
      assert Words(choices) <= Words(init) + if |c| == 4 then {Wire.Word4(c)} else {};
      Agreement.SubsetCount(Words(choices), Words(init) + if |c| == 4 then {Wire.Word4(c)} else {});
    }
  }

  /** No list the host can hold exhausts the four-byte strings. */
  lemma Unlisted(choices: seq<seq<byte>>) returns (s: seq<byte>)
    requires |choices| <= U32_MAX
    ensures |s| == 4 && s !in choices
  {
    hide Wire.Word4, Wire.BigEndian;
    WordsCount(choices);
    var n := FreeBelow(Words(choices), U32_MAX + 1);
    s := Wire.BigEndian(n, 4);
    Wire.WordRoundTrips(n, 0);
  }

  // ----- witnesses -----

  lemma TrueWitness(p: Predicate) returns (inp: EvalInputs)
    requires CanBeTrue(p)
    ensures LeafVerdict(inp, p) == True
  {
    var val := OtherVal;
    match p {
      case ArgAddrEq(_, a) => val := AddressVal(a);
      case ArgAddrIsSelf(_) => val := AddressVal("");
      case ArgSymEq(_, s) => val := SymbolVal(s);
      case ArgStrIn(_, choices) =>
        var k :| 0 <= k < |choices| && |choices[k]| <= MAX_STR_ARG_LEN;
        val := StringVal(choices[k]);
      case ArgStrPrefix(_, prefix) => val := StringVal(prefix);
      case ArgBytesEq(_, b) => val := BytesVal(b);
      case ArgI128Eq(_, n) => val := I128Val(n);
      case ArgU32Eq(_, n) => val := U32Val(n);
      case _ =>
    }
    inp := AtLeaf(p, val);
    if ReadsArg(p) { ArgOfCall("", p.index, val); }
    match p {
      case MinSigners(n) => inp := inp.(signerCount := n);
      case FnIn(fns) => inp := CallWith(fns[0], 0, OtherVal);
      case ArgCount(n) => inp := CallWith("", n, OtherVal);
      case LedgerAtOrAfter(n) => inp := inp.(ledger := n);
      case _ =>
    }
  }

  function AtLeaf(p: Predicate, val: Val): EvalInputs {
    CallWith("", if ReadsArg(p) && p.index < U32_MAX then p.index + 1 else 0, val)
  }

  lemma FalseWitness(p: Predicate) returns (inp: EvalInputs)
    requires CanBeFalse(p) && Fits(p)
    ensures LeafVerdict(inp, p) == False
  {
    var val := OtherVal;
    match p {
      case ArgAddrEq(_, a) => val := AddressVal(a + "x");
      case ArgAddrIsSelf(_) => val := AddressVal("x");
      case ArgSymEq(_, s) => val := SymbolVal(s + "x");
      case ArgStrIn(_, choices) =>
        var s := Unlisted(choices);
        val := StringVal(s);
      case ArgStrPrefix(_, _) => val := StringVal([]);
      case ArgBytesEq(_, b) => val := BytesVal(b + [0]);
      case ArgI128Eq(_, n) => val := I128Val(n + 1);
      case ArgU32Eq(_, n) => val := U32Val(if n == 0 then 1 else 0);
      case _ =>
    }
    inp := AtLeaf(p, val);
    if ReadsArg(p) { ArgOfCall("", p.index, val); }
    match p {
      case FnIn(fns) => inp := CallWith(Agreement.FreshAddress(set f | f in fns), 0, OtherVal);
      case ArgCount(n) => inp := CallWith("", if n == 0 then 1 else 0, OtherVal);
      case LedgerBefore(n) => inp := inp.(ledger := n);
      case _ =>
    }
  }

  /** A leaf takes a verdict on some invocation exactly when `CanBe` says so. */
  lemma LeafAttains(p: Predicate, v: Verdict)
    requires Fits(p)
    ensures (exists inp :: LeafVerdict(inp, p) == v) <==> CanBe(p, v)
  {
    if CanBe(p, v) {
      match v {
        case True => var inp := TrueWitness(p);
        case False => var inp := FalseWitness(p);
        case Unknown => assert LeafVerdict(EvalInputs(OtherContext, 0, "", 0), p) == Unknown;
      }
    } else {
      forall inp ensures LeafVerdict(inp, p) != v { NotBeyond(inp, p); }
    }
  }

  lemma NotBeyond(inp: EvalInputs, p: Predicate)
    ensures CanBe(p, LeafVerdict(inp, p))
  {
    if p.ArgStrIn? && LeafVerdict(inp, p) == True {
      var s := StringArg(inp, p.index).value;
      var k :| 0 <= k < |p.choices| && p.choices[k] == s;
    }
  }

  /** The interval of a leaf is the hull of the verdicts it takes exactly when both its ends
      are among them. */
  lemma IntervalTight(p: Predicate)
    requires Fits(p)
    ensures (exists inp :: LeafVerdict(inp, p) == LeafInterval(p).lo) &&
            (exists inp :: LeafVerdict(inp, p) == LeafInterval(p).hi) <==>
            || p == MinSigners(0) || p == LedgerBefore(0) || (CanBeTrue(p) && CanBeFalse(p))
  {
    LeafAttains(p, LeafInterval(p).lo);
    LeafAttains(p, LeafInterval(p).hi);
  }

  // ----- on which invocations -----

  /** The argument values a leaf asks for, in an account with this address. */
  ghost predicate Wants(self: Address, p: Predicate, v: Val)
    requires ReadsArg(p)
  {
    match p
    case ArgAddrEq(_, a) => v == AddressVal(a)
    case ArgAddrIsSelf(_) => v == AddressVal(self)
    case ArgSymEq(_, s) => v == SymbolVal(s)
    case ArgBytesEq(_, b) => v == BytesVal(b)
    case ArgI128Eq(_, n) => v == I128Val(n)
    case ArgU32Eq(_, n) => v == U32Val(n)
    case ArgStrIn(_, choices) => exists k :: 0 <= k < |choices| && |choices[k]| <= 256 && v == StringVal(choices[k])
    case ArgStrPrefix(_, prefix) => |prefix| <= 256 && v.StringVal? && exists rest :: v.text == prefix + rest
  }

  /** The values it can read: those of the type it asks for, within the string buffer. */
  predicate Reads(p: Predicate, v: Val)
    requires ReadsArg(p)
  {
    match p
    case ArgAddrEq(_, _) => v.AddressVal?
    case ArgAddrIsSelf(_) => v.AddressVal?
    case ArgSymEq(_, _) => v.SymbolVal?
    case ArgBytesEq(_, _) => v.BytesVal?
    case ArgI128Eq(_, _) => v.I128Val?
    case ArgU32Eq(_, _) => v.U32Val?
    case ArgStrIn(_, _) => v.StringVal? && |v.text| <= 256
    case ArgStrPrefix(_, prefix) => v.StringVal? && |prefix| <= 256
  }

  /** A leaf on an argument is true exactly of a value it asks for, and false exactly of
      another value it can read; anything else leaves it undecided. */
  lemma ArgLeafMeans(inp: EvalInputs, p: Predicate)
    requires ReadsArg(p)
    ensures LeafVerdict(inp, p) == True <==> Arg(inp, p.index).Some? && Wants(inp.selfAddr, p, Arg(inp, p.index).value)
    ensures LeafVerdict(inp, p) == False <==>
            var v := Arg(inp, p.index); v.Some? && Reads(p, v.value) && !Wants(inp.selfAddr, p, v.value)
  {
    if p.ArgStrPrefix? && StringArg(inp, p.index).Some? {
      var s, prefix := StringArg(inp, p.index).value, p.prefix;
      if prefix <= s { assert s == prefix + s[|prefix|..]; }
    }
  }

  /** A leaf on the invocation itself. The two on the ledger split time between them; the
      function and the argument count are undecided outside a contract call only. */
  lemma CallLeafMeans(inp: EvalInputs, n: u32, fns: seq<Symbol>)
    ensures LeafVerdict(inp, MinSigners(n)) == if n <= inp.signerCount then True else False
    ensures LeafVerdict(inp, LedgerBefore(n)) == if n <= inp.ledger then False else True
    ensures LeafVerdict(inp, LedgerAtOrAfter(n)) == if n <= inp.ledger then True else False
    ensures LeafVerdict(inp, FnIn(fns)) == Unknown <==> LeafVerdict(inp, ArgCount(n)) == Unknown
    ensures LeafVerdict(inp, FnIn(fns)) == Unknown <==> inp.context == OtherContext
    ensures LeafVerdict(inp, FnIn(fns)) == True <==> exists f, args :: f in fns && inp.context == ContractCall(f, args)
    ensures LeafVerdict(inp, ArgCount(n)) == True <==>
            inp.context != OtherContext && forall i: u32 :: Arg(inp, i).Some? <==> i < n
  {
    if inp.context.ContractCall? {
      var len := |inp.context.args|;
      if len < n { assert Arg(inp, len).None?; }
      if len > n { assert Arg(inp, n).Some?; }
    }
  }
}
