/** Lexicographic order on byte strings (`bytes_lt` in
    crates/perch-recovery-interface/src/credential.rs, and Rust's own string order). */
module Lex {
  import opened Base

  /** `a` before `b`: smaller at the first difference, or a proper prefix. */
  predicate LexLess(a: seq<int>, b: seq<int>) {
    b != [] && (a == [] || a[0] < b[0] || (a[0] == b[0] && LexLess(a[1..], b[1..])))
  }

  /** The index loop decides lexicographic order. */
  method BytesLt(a: seq<byte>, b: seq<byte>) returns (lt: bool)
    ensures lt <==> LexLess(a, b)
  {
    var n := if |a| < |b| then |a| else |b|;
    assert a[0..] == a && b[0..] == b;
    for i := 0 to n
      invariant LexLess(a, b) <==> LexLess(a[i..], b[i..])
    {
      assert a[i..][1..] == a[i+1..] && b[i..][1..] == b[i+1..];
      if a[i] != b[i] { return a[i] < b[i]; }
    }
    return |a| < |b|;
  }

  lemma {:induction false} LexIrreflexive(a: seq<int>)
    ensures !LexLess(a, a)
  {
    if a != [] { LexIrreflexive(a[1..]); }
  }

  lemma {:induction false} LexTransitive(a: seq<int>, b: seq<int>, c: seq<int>)
    requires LexLess(a, b) && LexLess(b, c)
    ensures LexLess(a, c)
  {
    if a != [] && a[0] == b[0] && b[0] == c[0] { LexTransitive(a[1..], b[1..], c[1..]); }
  }

  lemma {:induction false} LexTotal(a: seq<int>, b: seq<int>)
    ensures a == b || LexLess(a, b) || LexLess(b, a)
  {
    if a != [] && b != [] && a[0] == b[0] {
      LexTotal(a[1..], b[1..]);
      assert a == [a[0]] + a[1..] && b == [b[0]] + b[1..];
    }
  }

  // ----- positional value -----

  /** Most-significant-first value in the given base. */
  function Value(base: nat, digits: seq<int>): int {
    if digits == [] then 0
    else Value(base, digits[..|digits|-1]) * base + digits[|digits|-1]
  }

  function Pow(base: nat, n: nat): nat {
    if n == 0 then 1 else Pow(base, n - 1) * base
  }

  ghost predicate Digits(base: nat, s: seq<int>) {
    forall i :: 0 <= i < |s| ==> 0 <= s[i] < base
  }

  lemma Regroup(v: int, p: int, w: int, base: int)
    ensures (v * p + w) * base == v * (p * base) + w * base
  {
    assert (v * p) * base == v * (p * base);
  }

  lemma ScaleBound(v: int, p: int, base: nat, d: int)
    requires 0 <= v < p && 0 <= d < base
    ensures 0 <= v * base + d < p * base
  {
    assert v * base <= (p - 1) * base;
  }

  lemma {:induction false} ValueAppend(base: nat, a: seq<int>, b: seq<int>)
    ensures Value(base, a + b) == Value(base, a) * Pow(base, |b|) + Value(base, b)
  {
    if b == [] {
      assert a + b == a;
    } else {
      var b' := b[..|b|-1];
      ValueAppend(base, a, b');
      assert (a + b)[..|a + b|-1] == a + b';
      Regroup(Value(base, a), Pow(base, |b'|), Value(base, b'), base);
    }
  }

  lemma {:induction false} ValueRange(base: nat, s: seq<int>)
    requires Digits(base, s)
    ensures 0 <= Value(base, s) < Pow(base, |s|)
  {
    if s != [] {
      var s' := s[..|s|-1];
      ValueRange(base, s');
      ScaleBound(Value(base, s'), Pow(base, |s'|), base, s[|s|-1]);
    }
  }

  lemma HeadDecides(x: int, y: int, p: int, u: int, v: int)
    requires 0 <= u < p && 0 <= v < p
    ensures x < y ==> x * p + u < y * p + v
  {
    if x < y { assert (x + 1) * p <= y * p; }
  }

  /** On equally long digit strings the lexicographic order is the numeric order. */
  lemma {:induction false} LexIsNumeric(base: nat, a: seq<int>, b: seq<int>)
    requires |a| == |b| && Digits(base, a) && Digits(base, b)
    ensures LexLess(a, b) <==> Value(base, a) < Value(base, b)
  {
    if a != [] {
      var a', b', p := a[1..], b[1..], Pow(base, |a| - 1);
      HeadValue(base, a);
      HeadValue(base, b);
      ValueRange(base, a');
      ValueRange(base, b');
      LexIsNumeric(base, a', b');
      HeadDecides(a[0], b[0], p, Value(base, a'), Value(base, b'));
      HeadDecides(b[0], a[0], p, Value(base, b'), Value(base, a'));
    }
  }

  lemma HeadValue(base: nat, s: seq<int>)
    requires s != []
    ensures Value(base, s) == s[0] * Pow(base, |s| - 1) + Value(base, s[1..])
  {
    ValueAppend(base, [s[0]], s[1..]);
    assert [s[0]] + s[1..] == s;
    assert Value(base, [s[0]]) == s[0] by { assert [s[0]][..0] == []; }
  }
}
