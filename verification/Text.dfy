/** Text and bytes: UTF-8, decimal integers and hexadecimal, as the crates read and
    write them. */
module Text {
  import opened Base

  // ----- UTF-8 -----

  function Utf8Char(c: char): (bs: seq<byte>)
    ensures 1 <= |bs| <= 4
  {
    var n := c as int;
    if n < 0x80 then [n]
    else if n < 0x800 then [0xC0 + n / 64, 0x80 + n % 64]
    else if n < 0x10000 then [0xE0 + n / 4096, 0x80 + n / 64 % 64, 0x80 + n % 64]
    else [0xF0 + n / 262144, 0x80 + n / 4096 % 64, 0x80 + n / 64 % 64, 0x80 + n % 64]
  }

  function Utf8(s: string): (bs: seq<byte>)
    ensures |bs| >= |s|
  {
    if s == [] then [] else Utf8Char(s[0]) + Utf8(s[1..])
  }

  /** The scalar value of one encoded character. */
  function Utf8Value(bs: seq<byte>): int
    requires 1 <= |bs| <= 4
  {
    var lead: int := bs[0];
    match |bs|
    case 1 => lead
    case 2 => (lead - 0xC0) * 64 + Tail(bs[1])
    case 3 => (lead - 0xE0) * 4096 + Tail(bs[1]) * 64 + Tail(bs[2])
    case _ => (lead - 0xF0) * 262144 + Tail(bs[1]) * 4096 + Tail(bs[2]) * 64 + Tail(bs[3])
  }

  function Tail(b: int): int {
    b - 0x80
  }

  lemma Utf8CharRoundTrip(c: char)
    ensures Utf8Value(Utf8Char(c)) == c as int
  {
    var n := c as int;
    assert n / 4096 == n / 64 / 64 && n / 262144 == n / 4096 / 64;
  }

  lemma LeadByte(c: char, d: char)
    requires Utf8Char(c)[0] == Utf8Char(d)[0]
    ensures |Utf8Char(c)| == |Utf8Char(d)|
  {
  }

  /** A character's encoding starts no other character's encoding. */
  lemma Utf8CharPrefixFree(c: char, d: char, rest: seq<byte>)
    requires Utf8Char(c) <= Utf8Char(d) + rest
    ensures c == d
  {
    hide Utf8Char, Utf8Value;
    var bs, ds := Utf8Char(c), Utf8Char(d);
    assert bs[0] == (ds + rest)[0] == ds[0];
    LeadByte(c, d);
    assert bs == (ds + rest)[..|bs|] == ds;
    Utf8CharRoundTrip(c);
    Utf8CharRoundTrip(d);
  }

  /** Byte prefixes of encoded text are exactly the encodings of its text prefixes. */
  lemma {:induction false} Utf8Prefix(p: string, s: string)
    ensures Utf8(p) <= Utf8(s) <==> p <= s
  {
    if p == [] {
    } else if s == [] {
      assert |Utf8(p)| >= 1;
    } else if p[0] == s[0] {
      Utf8Prefix(p[1..], s[1..]);
      var h := Utf8Char(p[0]);
      assert (h + Utf8(p[1..]) <= h + Utf8(s[1..])) <==> Utf8(p[1..]) <= Utf8(s[1..]) by {
        PrefixCancel(h, Utf8(p[1..]), Utf8(s[1..]));
      }
      assert p == [p[0]] + p[1..] && s == [p[0]] + s[1..];
    } else if Utf8(p) <= Utf8(s) {
      assert Utf8Char(p[0]) <= Utf8Char(s[0]) + Utf8(s[1..]);
      Utf8CharPrefixFree(p[0], s[0], Utf8(s[1..]));
      assert false;
    }
  }

  lemma PrefixCancel<T>(h: seq<T>, a: seq<T>, b: seq<T>)
    ensures h + a <= h + b <==> a <= b
  {
    if h + a <= h + b {
      assert forall i :: 0 <= i < |a| ==> a[i] == (h + a)[|h| + i] == (h + b)[|h| + i] == b[i];
    }
  }

  lemma Utf8Injective(a: string, b: string)
    ensures Utf8(a) == Utf8(b) <==> a == b
  {
    Utf8Prefix(a, b);
    Utf8Prefix(b, a);
  }

  // ----- decimal -----

  predicate IsDigit(c: char) {
    '0' <= c <= '9'
  }

  function DigitValue(c: char): nat
    requires IsDigit(c)
  {
    c as int - '0' as int
  }

  predicate AllDigits(s: string) {
    forall i :: 0 <= i < |s| ==> IsDigit(s[i])
  }

  function Decimal(n: nat): (s: string)
    ensures s != [] && AllDigits(s)
  {
    if n < 10 then [(n + '0' as int) as char]
    else Decimal(n / 10) + [(n % 10 + '0' as int) as char]
  }

  function DecimalValue(s: string): nat
    requires AllDigits(s)
  {
    if s == [] then 0 else DecimalValue(s[..|s|-1]) * 10 + DigitValue(s[|s|-1])
  }

  lemma {:induction false} DecimalRoundTrip(n: nat)
    ensures DecimalValue(Decimal(n)) == n
  {
    if n >= 10 {
      DecimalRoundTrip(n / 10);
      assert Decimal(n)[..|Decimal(n)|-1] == Decimal(n / 10);
    }
  }

  /** Decimal digits, at least one. */
  function ParseNat(s: string): Option<nat> {
    if s != [] && AllDigits(s) then Some(DecimalValue(s)) else None
  }

  function ParseU32(s: string): Option<u32> {
    match ParseNat(if s != [] && s[0] == '+' then s[1..] else s)
    case Some(n) => if n <= U32_MAX then Some(n) else None
    case None => None
  }

  function ParseI128(s: string): Option<int> {
    if s != [] && s[0] == '-' then
      match ParseNat(s[1..])
      case Some(n) => if n <= I128_MAX + 1 then Some(-(n as int)) else None
      case None => None
    else
      match ParseNat(if s != [] && s[0] == '+' then s[1..] else s)
      case Some(n) => if n <= I128_MAX then Some(n) else None
      case None => None
  }

  /** The text writes the number in decimal, with or without a sign. */
  ghost predicate Numeral(s: string, n: int) {
    exists d: string :: d != [] && AllDigits(d) && SignedValue(s, d, n)
  }

  predicate SignedValue(s: string, d: string, n: int)
    requires AllDigits(d)
  {
    if s == "-" + d then n == 0 - DecimalValue(d) else (s == d || s == "+" + d) && n == DecimalValue(d)
  }

  lemma ParseI128Iff(s: string, n: int)
    ensures ParseI128(s) == Some(n) <==>
            Numeral(s, n) &&
            -0x8000_0000_0000_0000_0000_0000_0000_0000 <= n <= 0x7FFF_FFFF_FFFF_FFFF_FFFF_FFFF_FFFF_FFFF
  {
    var d := if s != [] && (s[0] == '-' || s[0] == '+') then s[1..] else s;
    OneNumeral(s, d, n);
  }

  lemma ParseU32Iff(s: string, n: nat)
    ensures ParseU32(s) == Some(n) <==> Numeral(s, n) && (s == [] || s[0] != '-') && n <= 0xFFFF_FFFF
  {
    var d := if s != [] && (s[0] == '-' || s[0] == '+') then s[1..] else s;
    OneNumeral(s, d, n);
  }

  lemma OneNumeral(s: string, d: string, n: int)
    requires d == if s != [] && (s[0] == '-' || s[0] == '+') then s[1..] else s
    ensures Numeral(s, n) <==>
            && d != [] && AllDigits(d)
            && n == if s[0] == '-' then 0 - DecimalValue(d) else DecimalValue(d)
  {
    if Numeral(s, n) {
      var e: string :| e != [] && AllDigits(e) && SignedValue(s, e, n);
      assert e == d by { if s == "-" + e || s == "+" + e { assert s[1..] == e; } else { assert IsDigit(s[0]); } }
    }
    if d != [] && AllDigits(d) && n == (if s[0] == '-' then 0 - DecimalValue(d) else DecimalValue(d)) {
      assert s == d || s == "-" + d || s == "+" + d;
      assert SignedValue(s, d, n);
    }
  }

  lemma ParseDecimal(n: u32)
    ensures ParseU32(Decimal(n)) == Some(n)
  {
    DecimalRoundTrip(n);
    assert IsDigit(Decimal(n)[0]);
  }

  // ----- hexadecimal -----

  type nibble = n: int | 0 <= n < 16

  function Nibble(c: char): Option<nibble> {
    if '0' <= c <= '9' then Some(c as int - '0' as int)
    else if 'a' <= c <= 'f' then Some(c as int - 'a' as int + 10)
    else if 'A' <= c <= 'F' then Some(c as int - 'A' as int + 10)
    else None
  }

  const LOWER_HEX := "0123456789abcdef"
  const UPPER_HEX := "0123456789ABCDEF"

  /** Either case of a hex digit counts. */
  lemma NibbleIff(c: char, n: nibble)
    ensures Nibble(c) == Some(n) <==> c == LOWER_HEX[n] || c == UPPER_HEX[n]
  {
  }

  predicate IsHex(s: string) {
    |s| % 2 == 0 && forall i :: 0 <= i < |s| ==> Nibble(s[i]).Some?
  }

  function HexByte(s: string, k: nat): byte
    requires IsHex(s) && 2 * k < |s|
  {
    16 * Nibble(s[2*k]).value + Nibble(s[2*k + 1]).value
  }

  function HexDecode(s: string): Option<seq<byte>> {
    if IsHex(s) then Some(seq(|s| / 2, k requires 0 <= k < |s| / 2 => HexByte(s, k))) else None
  }
}
