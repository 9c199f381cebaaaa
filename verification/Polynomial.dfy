/** The strkey checksum as algebra (crates/perch-ir/src/validate.rs): the register is a
    remainder of polynomials over the field of two elements, and a strkey is accepted exactly
    when its bytes are a multiple of the generator. */
module Polynomial {
  import opened Base
  import opened Strkey

  // ----- polynomials over GF(2) -----

  /** A polynomial is the set of its exponents. */
  type Poly = set<nat>

  function Plus(p: Poly, q: Poly): Poly {
    (p - q) + (q - p)
  }

  /** Multiplication by `x^k`. */
  function Raise(p: Poly, k: nat): Poly {
    set e | e in p :: e + k
  }

  /** The coefficient of `x^n` in `q` times `x^16 + x^12 + x^5 + 1`. */
  predicate Coefficient(q: Poly, n: nat) {
    (n in q) != ((n >= 5 && n - 5 in q) != ((n >= 12 && n - 12 in q) != (n >= 16 && n - 16 in q)))
  }

  /** `p` is `q` times the generator. */
  ghost predicate Product(p: Poly, q: Poly) {
    forall n: nat :: n in p <==> Coefficient(q, n)
  }

  /** A multiple of the generator `x^16 + x^12 + x^5 + 1`. */
  ghost predicate Divisible(p: Poly) {
    exists q: Poly :: Product(p, q)
  }

  ghost predicate Congruent(p: Poly, q: Poly) {
    Divisible(Plus(p, q))
  }

  lemma ZeroDivisible()
    ensures Divisible({})
  {
    assert Product({}, {});
  }

  lemma PlusDivisible(p: Poly, q: Poly)
    requires Divisible(p) && Divisible(q)
    ensures Divisible(Plus(p, q))
  {
    var a: Poly :| Product(p, a);
    var b: Poly :| Product(q, b);
    forall n: nat ensures n in Plus(p, q) <==> Coefficient(Plus(a, b), n) {
      assert n in p <==> Coefficient(a, n);
      assert n in q <==> Coefficient(b, n);
    }
    assert Product(Plus(p, q), Plus(a, b));
  }

  lemma InRaise(p: Poly, k: nat, n: nat)
    ensures n in Raise(p, k) <==> n >= k && n - k in p
  {
    if n >= k && n - k in p { assert (n - k) + k in Raise(p, k); }
  }

  lemma RaiseDivisible(p: Poly, k: nat)
    requires Divisible(p)
    ensures Divisible(Raise(p, k))
  {
    hide Raise;
    var q: Poly :| Product(p, q);
    forall n: nat ensures n in Raise(p, k) <==> Coefficient(Raise(q, k), n) {
      InRaise(p, k, n);
      InRaise(q, k, n);
      if n >= 5 { InRaise(q, k, n - 5); }
      if n >= 12 { InRaise(q, k, n - 12); }
      if n >= 16 { InRaise(q, k, n - 16); }
      if n >= k { assert n - k in p <==> Coefficient(q, n - k); }
    }
    assert Product(Raise(p, k), Raise(q, k));
  }

  lemma {:induction false} Largest(p: Poly) returns (m: nat)
    requires p != {}
    ensures m in p && forall e :: e in p ==> e <= m
    decreases |p|
  {
    var e: nat :| e in p;
    m := e;
    var rest := p - {e};
    if rest != {} {
      var n := Largest(rest);
      m := if n > e then n else e;
    }
    forall f | f in p ensures f <= m { assert f == e || f in rest; }
  }

  /** No multiple of the generator but zero has a degree below 16. */
  lemma SmallMultipleIsZero(p: Poly)
    requires Divisible(p) && forall e :: e in p ==> e < 16
    ensures p == {}
  {
    var q: Poly :| Product(p, q);
    if q != {} {
      var m := Largest(q);
      assert Coefficient(q, m + 16);
      assert false;
    }
    forall n: nat ensures n !in p { assert n in p <==> Coefficient(q, n); }
  }

  // ----- congruence -----

  lemma CongruentSelf(p: Poly)
    ensures Congruent(p, p)
  {
    assert Plus(p, p) == {};
    ZeroDivisible();
  }

  lemma CongruentTrans(p: Poly, q: Poly, r: Poly)
    requires Congruent(p, q) && Congruent(q, r)
    ensures Congruent(p, r)
  {
    hide Divisible;
    PlusDivisible(Plus(p, q), Plus(q, r));
    assert Plus(Plus(p, q), Plus(q, r)) == Plus(p, r);
  }

  lemma CongruentRaise(p: Poly, q: Poly, k: nat)
    requires Congruent(p, q)
    ensures Congruent(Raise(p, k), Raise(q, k))
  {
    hide Divisible;
    RaiseDivisible(Plus(p, q), k);
    RaisePlus(p, q, k);
  }

  lemma RaisePlus(p: Poly, q: Poly, k: nat)
    ensures Raise(Plus(p, q), k) == Plus(Raise(p, k), Raise(q, k))
  {
    hide Raise;
    forall n: nat ensures n in Raise(Plus(p, q), k) <==> n in Plus(Raise(p, k), Raise(q, k)) {
      InRaise(Plus(p, q), k, n);
      InRaise(p, k, n);
      InRaise(q, k, n);
    }
  }

  lemma RaiseRaise(p: Poly, j: nat, k: nat)
    ensures Raise(Raise(p, j), k) == Raise(p, j + k)
  {
    hide Raise;
    forall n: nat ensures n in Raise(Raise(p, j), k) <==> n in Raise(p, j + k) {
      InRaise(Raise(p, j), k, n);
      InRaise(p, j + k, n);
      if n >= k { InRaise(p, j, n - k); }
    }
  }

  lemma CongruentPlus(p: Poly, q: Poly, r: Poly)
    requires Congruent(p, q)
    ensures Congruent(Plus(p, r), Plus(q, r))
  {
    hide Divisible;
    assert Plus(Plus(p, r), Plus(q, r)) == Plus(p, q);
  }

  // ----- bits -----

  predicate Bit8(b: bv8, e: nat) {
    match e
    case 0 => b & 0x01 != 0 case 1 => b & 0x02 != 0 case 2 => b & 0x04 != 0 case 3 => b & 0x08 != 0
    case 4 => b & 0x10 != 0 case 5 => b & 0x20 != 0 case 6 => b & 0x40 != 0 case 7 => b & 0x80 != 0
    case _ => false
  }

  function Mask(e: nat): bv16 {
    match e
    case 0 => 0x0001 case 1 => 0x0002 case 2 => 0x0004 case 3 => 0x0008
    case 4 => 0x0010 case 5 => 0x0020 case 6 => 0x0040 case 7 => 0x0080
    case 8 => 0x0100 case 9 => 0x0200 case 10 => 0x0400 case 11 => 0x0800
    case 12 => 0x1000 case 13 => 0x2000 case 14 => 0x4000 case 15 => 0x8000
    case _ => 0
  }

  function Masked(r: bv16, mask: bv16): bv16 {
    r & mask
  }

  predicate Tests(r: bv16, mask: bv16) {
    Masked(r, mask) != 0
  }

  predicate Bit16(r: bv16, e: nat) {
    Tests(r, Mask(e))
  }

  /** The register as a polynomial: bit `e` is the coefficient of `x^e`. */
  function Register(r: bv16): Poly {
    set e: nat | e < 16 && Bit16(r, e)
  }

  /** Bytes as a polynomial, the first bit of the first byte highest. */
  function Message(data: seq<bv8>): Poly {
    set e: nat | e < 8 * |data| && Bit8(data[|data| - 1 - e / 8], e % 8)
  }

  lemma RegisterInjective(a: bv16, b: bv16)
    requires Register(a) == Register(b)
    ensures a == b
  {
    forall e: nat | e < 16 ensures Bit16(a, e) == Bit16(b, e) {
      assert e in Register(a) <==> e in Register(b);
    }
    SameBits(a, b);
  }

  lemma SameBits(a: bv16, b: bv16)
    requires forall e: nat :: e < 16 ==> Bit16(a, e) == Bit16(b, e)
    ensures a == b
  {
    hide Tests, Mask, Xor;
    forall e: nat | e < 16 ensures !Tests(Xor(a, b), Mask(e)) {
      assert Bit16(a, e) == Bit16(b, e);
      XorBit(a, b, e);
    }
    NoBits(Xor(a, b));
    XorZero(a, b);
  }

  lemma NoBits(x: bv16)
    requires forall e: nat :: e < 16 ==> !Tests(x, Mask(e))
    ensures x == 0
  {
    hide Tests;
    assert !Tests(x, Mask(0)) && !Tests(x, Mask(1)) && !Tests(x, Mask(2)) && !Tests(x, Mask(3));
    assert !Tests(x, Mask(4)) && !Tests(x, Mask(5)) && !Tests(x, Mask(6)) && !Tests(x, Mask(7));
    assert !Tests(x, Mask(8)) && !Tests(x, Mask(9)) && !Tests(x, Mask(10)) && !Tests(x, Mask(11));
    assert !Tests(x, Mask(12)) && !Tests(x, Mask(13)) && !Tests(x, Mask(14)) && !Tests(x, Mask(15));
    NoMasks(x);
  }

  lemma NoMasks(x: bv16)
    requires !Tests(x, 0x0001) && !Tests(x, 0x0002) && !Tests(x, 0x0004) && !Tests(x, 0x0008)
    requires !Tests(x, 0x0010) && !Tests(x, 0x0020) && !Tests(x, 0x0040) && !Tests(x, 0x0080)
    requires !Tests(x, 0x0100) && !Tests(x, 0x0200) && !Tests(x, 0x0400) && !Tests(x, 0x0800)
    requires !Tests(x, 0x1000) && !Tests(x, 0x2000) && !Tests(x, 0x4000) && !Tests(x, 0x8000)
    ensures x == 0
  {
  }

  lemma XorZero(a: bv16, b: bv16)
    requires Xor(a, b) == 0
    ensures a == b
  {
  }

  lemma AndXor(a: bv16, b: bv16, mask: bv16)
    ensures Masked(Xor(a, b), mask) == Xor(Masked(a, mask), Masked(b, mask))
  {
  }

  lemma OneBit(x: bv16, e: nat)
    ensures Masked(x, Mask(e)) in {0, Mask(e)}
  {
  }

  lemma EitherZero(x: bv16, y: bv16, mask: bv16)
    requires (x == 0 || x == mask) && (y == 0 || y == mask)
    ensures Xor(x, y) != 0 <==> (x != 0) != (y != 0)
  {
    hide Xor;
    XorBasics(x);
    XorBasics(y);
  }

  lemma XorBasics(x: bv16)
    ensures Xor(x, 0) == x && Xor(0, x) == x && Xor(x, x) == 0
  {
  }

  lemma XorBit(a: bv16, b: bv16, e: nat)
    ensures Bit16(Xor(a, b), e) <==> Bit16(a, e) != Bit16(b, e)
  {
    hide Mask, Xor, Masked;
    AndXor(a, b, Mask(e));
    OneBit(a, e);
    OneBit(b, e);
    EitherZero(Masked(a, Mask(e)), Masked(b, Mask(e)), Mask(e));
  }

  lemma RegisterXor(a: bv16, b: bv16)
    ensures Register(Xor(a, b)) == Plus(Register(a), Register(b))
  {
    hide Bit16, Xor;
    forall e: nat ensures e in Register(Xor(a, b)) <==> e in Plus(Register(a), Register(b)) {
      XorBit(a, b, e);
    }
  }

  lemma DoubleTests(r: bv16, mask: bv16)
    requires mask & 0x8000 == 0
    ensures Tests(Double(r), Double(mask)) <==> Tests(r, mask)
    ensures !Tests(Double(r), 1)
  {
  }

  lemma MaskDoubles(e: nat)
    requires 0 < e < 16
    ensures Mask(e) == Double(Mask(e - 1)) && Mask(e - 1) & 0x8000 == 0
  {
  }

  lemma DoubleBit(r: bv16, e: nat)
    requires e < 16
    ensures Bit16(Double(r), e) <==> e > 0 && Bit16(r, e - 1)
  {
    hide Tests, Double;
    if e == 0 {
      DoubleTests(r, 1);
    } else {
      MaskDoubles(e);
      DoubleTests(r, Mask(e - 1));
    }
  }

  lemma TopBit(r: bv16)
    ensures Top(r) <==> Bit16(r, 15)
  {
  }

  lemma DoubleRaises(r: bv16)
    ensures Raise(Register(r), 1) == Plus(Register(Double(r)), if Top(r) then {16} else {})
  {
    hide Bit16, Double, Raise, Top;
    TopBit(r);
    forall n: nat ensures n in Raise(Register(r), 1) <==> n in Plus(Register(Double(r)), if Top(r) then {16} else {}) {
      InRaise(Register(r), 1, n);
      if n < 16 { DoubleBit(r, n); }
    }
  }

  lemma GeneratorDivisible()
    ensures Divisible({0, 5, 12, 16})
  {
    forall n: nat ensures n in {0, 5, 12, 16} <==> Coefficient({0}, n) {
    }
    assert Product({0, 5, 12, 16}, {0});
  }

  lemma FeedbackPoly()
    ensures Register(0x1021) == {0, 5, 12}
  {
    forall e: nat ensures e in Register(0x1021) <==> e in {0, 5, 12} {
    }
  }

  /** One shift of the register multiplies by `x`, modulo the generator. */
  lemma ShiftIsTimesX(r: bv16)
    ensures Congruent(Register(Shift1(r)), Raise(Register(r), 1))
  {
    hide Divisible, Register, Raise, Double, Xor, Top;
    DoubleRaises(r);
    if Top(r) {
      RegisterXor(Double(r), 0x1021);
      FeedbackPoly();
      GeneratorDivisible();
      var d := Register(Double(r));
      assert Plus(Plus(d, {0, 5, 12}), Plus(d, {16})) == {0, 5, 12, 16};
    } else {
      assert Plus(Register(Double(r)), {}) == Register(Double(r));
      CongruentSelf(Register(Double(r)));
    }
  }

  lemma {:induction false} ShiftsAreTimesX(r: bv16, n: nat)
    ensures Congruent(Register(Shifts(r, n)), Raise(Register(r), n))
  {
    hide Divisible, Register, Raise, Shift1, Congruent;
    if n == 0 {
      RaiseNothing(Register(r));
      CongruentSelf(Register(r));
    } else {
      var before := Shifts(r, n - 1);
      ShiftsAreTimesX(r, n - 1);
      ShiftIsTimesX(before);
      CongruentRaise(Register(before), Raise(Register(r), n - 1), 1);
      RaiseRaise(Register(r), n - 1, 1);
      CongruentTrans(Register(Shift1(before)), Raise(Register(before), 1), Raise(Register(r), n));
    }
  }

  lemma RaiseNothing(p: Poly)
    ensures Raise(p, 0) == p
  {
    hide Raise;
    forall n: nat ensures n in Raise(p, 0) <==> n in p { InRaise(p, 0, n); }
  }

  // ----- the register over a message -----

  lemma HighByteBit(b: bv8, e: nat)
    requires e < 16
    ensures Bit16(HighByte(b), e) <==> e >= 8 && Bit8(b, e - 8)
  {
  }

  lemma HighBytePoly(b: bv8)
    ensures Register(HighByte(b)) == Raise(Message([b]), 8)
  {
    hide Bit16, Bit8, HighByte, Raise;
    forall n: nat ensures n in Register(HighByte(b)) <==> n in Raise(Message([b]), 8) {
      InRaise(Message([b]), 8, n);
      if n < 16 { HighByteBit(b, n); }
    }
  }

  /** One more byte multiplies what came before by `x^8`. */
  lemma MessageSnoc(data: seq<bv8>, b: bv8)
    ensures Message(data + [b]) == Plus(Raise(Message(data), 8), Message([b]))
  {
    hide Bit8, Raise;
    var all := data + [b];
    forall n: nat ensures n in Message(all) <==> n in Plus(Raise(Message(data), 8), Message([b])) {
      InRaise(Message(data), 8, n);
      if n >= 8 {
        assert (n - 8) / 8 == n / 8 - 1 && (n - 8) % 8 == n % 8;
        if n < 8 * |all| { assert all[|all| - 1 - n / 8] == data[|data| - 1 - (n - 8) / 8]; }
      } else {
        assert n / 8 == 0;
      }
    }
  }

  /** The checksum register of a message is its polynomial times `x^16`, modulo the
      generator. */
  lemma {:induction false} CrcIsRemainder(data: seq<bv8>)
    ensures Congruent(Register(Crc(data, 0)), Raise(Message(data), 16))
  {
    hide Divisible, Register, Raise, Shifts, Mix, Message, Congruent;
    if data == [] {
      EmptyMessage();
    } else {
      var init, b := data[..|data|-1], data[|data|-1];
      CrcIsRemainder(init);
      AbsorbByte(Crc(init, 0), init, b);
      assert data == init + [b];
    }
  }

  lemma EmptyMessage()
    ensures Congruent(Register(0), Raise(Message([]), 16))
  {
    assert Register(0) == {} by {
      forall e: nat ensures e !in Register(0) {
      }
    }
    assert Message([]) == {} && Raise({}, 16) == {};
    CongruentSelf({});
  }

  lemma AbsorbByte(crc: bv16, data: seq<bv8>, b: bv8)
    requires Congruent(Register(crc), Raise(Message(data), 16))
    ensures Congruent(Register(Absorb(crc, b)), Raise(Message(data + [b]), 16))
  {
    hide Divisible, Register, Raise, Shifts, Message, Congruent, Plus, HighByte, Xor;
    var mixed, byte := Mix(crc, b), Raise(Message([b]), 8);
    ShiftsAreTimesX(mixed, 8);
    RegisterXor(crc, HighByte(b));
    HighBytePoly(b);
    var earlier := Raise(Message(data), 16);
    CongruentPlus(Register(crc), earlier, byte);
    CongruentRaise(Register(mixed), Plus(earlier, byte), 8);
    CongruentTrans(Register(Absorb(crc, b)), Raise(Register(mixed), 8), Raise(Plus(earlier, byte), 8));
    RaisePlus(earlier, byte, 8);
    RaiseRaise(Message(data), 16, 8);
    RaiseRaise(Message([b]), 8, 8);
    MessageSnoc(data, b);
    RaisePlus(Raise(Message(data), 8), Message([b]), 16);
    RaiseRaise(Message(data), 8, 16);
  }

  /** It is the only register that is. */
  lemma CrcUnique(data: seq<bv8>, r: bv16)
    ensures Congruent(Register(r), Raise(Message(data), 16)) <==> r == Crc(data, 0)
  {
    hide Divisible, Raise, Crc, Message, Bit16;
    CrcIsRemainder(data);
    if Congruent(Register(r), Raise(Message(data), 16)) {
      var p, q, m := Register(r), Register(Crc(data, 0)), Raise(Message(data), 16);
      PlusDivisible(Plus(p, m), Plus(q, m));
      assert Plus(Plus(p, m), Plus(q, m)) == Plus(p, q);
      SmallMultipleIsZero(Plus(p, q));
      assert p == q;
      RegisterInjective(r, Crc(data, 0));
    }
  }

  // ----- which strings are accepted -----

  /** The 35 bytes with the two checksum bytes, stored low byte first, put high byte first. */
  function CodeWord(d: seq<bv8>): seq<bv8>
    requires |d| == BYTES
  {
    d[..BODY] + [d[34], d[33]]
  }

  lemma StoredBit(a: bv8, b: bv8, e: nat)
    requires e < 16
    ensures Bit16((a as bv16) | ((b as bv16) << 8), e) <==> if e < 8 then Bit8(a, e) else Bit8(b, e - 8)
  {
    hide Bit16, Bit8, Xor, HighByte;
    OrIsXor(a, b);
    XorBit(Wide(a), HighByte(b), e);
    HighByteBit(b, e);
    WideBit(a, e);
  }

  function Wide(a: bv8): bv16 { a as bv16 }

  lemma OrIsXor(a: bv8, b: bv8)
    ensures (a as bv16) | ((b as bv16) << 8) == Xor(Wide(a), HighByte(b))
  {
  }

  lemma WideBit(a: bv8, e: nat)
    requires e < 16
    ensures Bit16(Wide(a), e) <==> e < 8 && Bit8(a, e)
  {
  }

  lemma StoredPoly(d: seq<bv8>)
    requires |d| == BYTES
    ensures Register(Stored(d)) == Message([d[34], d[33]])
  {
    hide Bit16, Bit8;
    var pair := [d[34], d[33]];
    forall e: nat ensures e in Register(Stored(d)) <==> e in Message(pair) {
      if e < 16 {
        StoredBit(d[33], d[34], e);
        if e < 8 { assert e / 8 == 0 && e % 8 == e; } else { assert e / 8 == 1 && e % 8 == e - 8; }
      }
    }
  }

  lemma MessageConcat(data: seq<bv8>, a: bv8, b: bv8)
    ensures Message(data + [a, b]) == Plus(Raise(Message(data), 16), Message([a, b]))
  {
    hide Raise, Message, Plus;
    MessageSnoc(data + [a], b);
    MessageSnoc(data, a);
    MessageSnoc([a], b);
    assert data + [a, b] == data + [a] + [b] && [a] + [b] == [a, b];
    RaisePlus(Raise(Message(data), 8), Message([a]), 8);
    RaiseRaise(Message(data), 8, 8);
    PlusAssociative(Raise(Message(data), 16), Raise(Message([a]), 8), Message([b]));
  }

  lemma PlusAssociative(p: Poly, q: Poly, r: Poly)
    ensures Plus(Plus(p, q), r) == Plus(p, Plus(q, r)) && Plus(p, q) == Plus(q, p)
  {
  }

  /** A string is accepted exactly when it is base 32 and its bytes, body and checksum, are a
      multiple of the generator. */
  lemma AcceptedIff(s: string)
    ensures ChecksumOk(s) <==> IsBase32(s) && Divisible(Message(CodeWord(Bytes(Quintets(s)))))
  {
    if IsBase32(s) {
      hide Divisible, Message, Raise, Plus, Crc, Register, IsBase32, Bytes, Quintets, Stored;
      var d := Bytes(Quintets(s));
      CrcUnique(d[..BODY], Stored(d));
      StoredPoly(d);
      MessageConcat(d[..BODY], d[34], d[33]);
      PlusAssociative(Register(Stored(d)), Raise(Message(d[..BODY]), 16), {});
    }
  }

  // ----- the alphabet -----

  const ALPHABET := "ABCDEFGHIJKLMNOPQRSTUVWXYZ234567"

  /** The quintet of a character is its index in the alphabet. */
  lemma QuintetIsIndex(c: char)
    ensures Quintet(c).Some? ==> (Quintet(c).value as nat) < 32 && ALPHABET[Quintet(c).value as nat] == c
    ensures Quintet(c).None? ==> c !in ALPHABET
  {
    QuintetLetter(c);
    if Quintet(c).None? && c in ALPHABET {
      var i :| 0 <= i < |ALPHABET| && ALPHABET[i] == c;
      LetterQuintet(i);
    }
  }

  lemma QuintetLetter(c: char)
    ensures Quintet(c).Some? ==> (Quintet(c).value as nat) < 32 && ALPHABET[Quintet(c).value as nat] == c
  {
  }

  lemma LetterQuintet(i: nat)
    requires i < 32
    ensures Quintet(ALPHABET[i]) == Some(i as bv8)
  {
    hide Quintet;
    if i < 12 { LetterLow(i); } else if i < 22 { LetterMiddle(i); } else { LetterHigh(i); }
  }

  lemma LetterLow(i: nat)
    requires i < 12
    ensures Quintet(ALPHABET[i]) == Some(i as bv8)
  {
  }

  lemma LetterMiddle(i: nat)
    requires 12 <= i < 22
    ensures Quintet(ALPHABET[i]) == Some(i as bv8)
  {
  }

  lemma LetterHigh(i: nat)
    requires 22 <= i < 32
    ensures Quintet(ALPHABET[i]) == Some(i as bv8)
  {
  }

  // ----- every body has one strkey -----

  // The eight quintets that five bytes spell.
  function Digit0(a: bv8): bv8 { a >> 3 }
  function Digit1(a: bv8, b: bv8): bv8 { ((a << 2) & 0x1C) | (b >> 6) }
  function Digit2(b: bv8): bv8 { (b >> 1) & 0x1F }
  function Digit3(b: bv8, c: bv8): bv8 { ((b << 4) & 0x10) | (c >> 4) }
  function Digit4(c: bv8, d: bv8): bv8 { ((c << 1) & 0x1E) | (d >> 7) }
  function Digit5(d: bv8): bv8 { (d >> 2) & 0x1F }
  function Digit6(d: bv8, e: bv8): bv8 { ((d << 3) & 0x18) | (e >> 5) }
  function Digit7(e: bv8): bv8 { e & 0x1F }

  lemma DigitsSpell(a: bv8, b: bv8, c: bv8, d: bv8, e: bv8)
    ensures Byte0(Digit0(a), Digit1(a, b)) == a && Byte1(Digit1(a, b), Digit2(b), Digit3(b, c)) == b
    ensures Byte2(Digit3(b, c), Digit4(c, d)) == c && Byte3(Digit4(c, d), Digit5(d), Digit6(d, e)) == d
    ensures Byte4(Digit6(d, e), Digit7(e)) == e
    ensures Digit0(a) < 32 && Digit1(a, b) < 32 && Digit2(b) < 32 && Digit3(b, c) < 32
    ensures Digit4(c, d) < 32 && Digit5(d) < 32 && Digit6(d, e) < 32 && Digit7(e) < 32
  {
  }

  function Digit(a: bv8, b: bv8, c: bv8, d: bv8, e: bv8, r: nat): bv8 {
    match r
    case 0 => Digit0(a) case 1 => Digit1(a, b) case 2 => Digit2(b) case 3 => Digit3(b, c)
    case 4 => Digit4(c, d) case 5 => Digit5(d) case 6 => Digit6(d, e) case _ => Digit7(e)
  }

  function GroupDigit(d: seq<bv8>, g: nat, r: nat): bv8
    requires |d| == BYTES && g < 7
  {
    Digit(d[5*g], d[5*g+1], d[5*g+2], d[5*g+3], d[5*g+4], r)
  }

  function Digits(d: seq<bv8>): (q: seq<bv8>)
    requires |d| == BYTES
    ensures |q| == CHARS
  {
    seq(CHARS, i requires 0 <= i < CHARS => GroupDigit(d, i / 8, i % 8))
  }

  lemma ByteOfDigits(a: bv8, b: bv8, c: bv8, d: bv8, e: bv8, u: nat)
    requires u < 5
    ensures ByteOf(Digit(a, b, c, d, e, 0), Digit(a, b, c, d, e, 1), Digit(a, b, c, d, e, 2), Digit(a, b, c, d, e, 3),
                   Digit(a, b, c, d, e, 4), Digit(a, b, c, d, e, 5), Digit(a, b, c, d, e, 6), Digit(a, b, c, d, e, 7),
                   u) == [a, b, c, d, e][u]
  {
    hide Digit0, Digit1, Digit2, Digit3, Digit4, Digit5, Digit6, Digit7, Byte0, Byte1, Byte2, Byte3, Byte4;
    DigitsSpell(a, b, c, d, e);
  }

  lemma DigitsAt(d: seq<bv8>, g: nat, r: nat)
    requires |d| == BYTES && g < 7 && r < 8
    ensures Digits(d)[8 * g + r] == Digit(d[5*g], d[5*g+1], d[5*g+2], d[5*g+3], d[5*g+4], r)
  {
    hide Digit;
    assert (8 * g + r) / 8 == g && (8 * g + r) % 8 == r;
  }

  lemma GroupSpells(d: seq<bv8>, g: nat, u: nat)
    requires |d| == BYTES && g < 7 && u < 5
    ensures GroupByte(Digits(d), g, u) == d[5 * g + u]
  {
    hide Digits, ByteOf, Digit;
    DigitsAt(d, g, 0); DigitsAt(d, g, 1); DigitsAt(d, g, 2); DigitsAt(d, g, 3);
    DigitsAt(d, g, 4); DigitsAt(d, g, 5); DigitsAt(d, g, 6); DigitsAt(d, g, 7);
    ByteOfDigits(d[5*g], d[5*g+1], d[5*g+2], d[5*g+3], d[5*g+4], u);
  }

  lemma DigitSmall(d: seq<bv8>, i: nat)
    requires |d| == BYTES && i < CHARS
    ensures Digits(d)[i] < 32
  {
    hide Digits, Digit;
    var g := i / 8;
    DigitsAt(d, g, i % 8);
    DigitFits(d[5*g], d[5*g+1], d[5*g+2], d[5*g+3], d[5*g+4], i % 8);
  }

  lemma DigitFits(a: bv8, b: bv8, c: bv8, d: bv8, e: bv8, r: nat)
    ensures Digit(a, b, c, d, e, r) < 32
  {
    hide Digit0, Digit1, Digit2, Digit3, Digit4, Digit5, Digit6, Digit7;
    DigitsSpell(a, b, c, d, e);
  }

  /** Any 35 bytes are spelled by some 56 characters. */
  lemma Spelled(d: seq<bv8>) returns (s: string)
    requires |d| == BYTES
    ensures IsBase32(s) && Bytes(Quintets(s)) == d
  {
    hide GroupByte, GroupDigit, Quintet;
    var q := Digits(d);
    forall i | 0 <= i < CHARS ensures q[i] < 32 { DigitSmall(d, i); }
    s := seq(CHARS, i requires 0 <= i < CHARS => Letter(q[i]));
    forall i | 0 <= i < CHARS ensures Quintet(s[i]) == Some(q[i]) { LetterSpells(q[i]); }
    assert Quintets(s) == q;
    forall j | 0 <= j < BYTES ensures Bytes(q)[j] == d[j] { GroupSpells(d, j / 5, j % 5); }
  }

  function Letter(q: bv8): char {
    if (q as nat) < 32 then ALPHABET[q as nat] else 'A'
  }

  lemma LetterSpells(q: bv8)
    requires q < 32
    ensures Quintet(Letter(q)) == Some(q)
  {
    SmallAsNat(q);
    LetterQuintet(q as nat);
  }

  lemma SmallAsNat(q: bv8)
    requires q < 32
    ensures (q as nat) < 32 && (q as nat) as bv8 == q
  {
  }

  /** Every 33-byte body is the body of an accepted string, and of one only: its body, then
      its remainder, low byte first. */
  lemma OneStrkeyPerBody(body: seq<bv8>) returns (s: string)
    requires |body| == BODY
    ensures ChecksumOk(s) && Body(s) == body
    ensures forall t :: ChecksumOk(t) && Body(t) == body ==> t == s
  {
    hide Crc, IsBase32, Bytes, Quintets, Stored, LowHalf, HighHalf;
    var crc := Crc(body, 0);
    var d := body + [LowHalf(crc), HighHalf(crc)];
    s := Spelled(d);
    assert d[..BODY] == body;
    StoredHalves(body, crc);
    forall t | ChecksumOk(t) && Body(t) == body ensures t == s { BodyDetermines(s, t); }
  }

  lemma StoredHalves(body: seq<bv8>, crc: bv16)
    requires |body| == BODY
    ensures Stored(body + [LowHalf(crc), HighHalf(crc)]) == crc
  {
    hide LowHalf, HighHalf;
    Halves(crc);
  }

  function LowHalf(r: bv16): bv8 { (r & 0xFF) as bv8 }
  function HighHalf(r: bv16): bv8 { (r >> 8) as bv8 }

  lemma Halves(r: bv16)
    ensures (LowHalf(r) as bv16) | ((HighHalf(r) as bv16) << 8) == r
  {
  }
}
