/** Canonical BN254 field elements, compared three ways: as lowercase hex text by the
    document validator, as big-endian bytes by the ZK boundary, and as numbers. */
module Field {
  import opened Base
  import opened Text
  import opened Lex

  // The scalar field modulus, written in eight words as text and as bytes.
  const MODULUS_HEX := MODULUS_HEX_HEAD + "2833e848" + "79b97091" + "43e1f593" + "f0000001"
  const MODULUS_HEX_HEAD := "30644e72" + "e131a029" + "b85045b6" + "8181585d"

  const MODULUS_HEAD: seq<byte> :=
    [0x30, 0x64, 0x4e, 0x72] + [0xe1, 0x31, 0xa0, 0x29] + [0xb8, 0x50, 0x45, 0xb6] + [0x81, 0x81, 0x58, 0x5d]
  const MODULUS: seq<byte> := MODULUS_HEAD +
    [0x28, 0x33, 0xe8, 0x48] + [0x79, 0xb9, 0x70, 0x91] + [0x43, 0xe1, 0xf5, 0x93] + [0xf0, 0x00, 0x00, 0x01]

  type Bytes32 = b: seq<byte> | |b| == 32 witness seq(32, _ => 0)

  function Number(x: seq<byte>): int {
    Value(256, x)
  }

  /** The byte loop decides `x < r` as numbers. */
  method IsCanonicalField(x: Bytes32) returns (ok: bool)
    ensures ok <==> Number(x) < Number(MODULUS)
  {
    LexIsNumeric(256, x, MODULUS);
    assert x[0..] == x && MODULUS[0..] == MODULUS;
    for i := 0 to 32
      invariant LexLess(x, MODULUS) <==> LexLess(x[i..], MODULUS[i..])
    {
      assert x[i..][1..] == x[i+1..] && MODULUS[i..][1..] == MODULUS[i+1..];
      if x[i] != MODULUS[i] { return x[i] < MODULUS[i]; }
    }
    return false;
  }

  // ----- hexadecimal text -----

  predicate IsLowerHex(c: char) {
    '0' <= c <= '9' || 'a' <= c <= 'f'
  }

  /** 64 lowercase hex characters. */
  predicate IsSha256Hex(s: string) {
    |s| == 64 && forall i :: 0 <= i < |s| ==> IsLowerHex(s[i])
  }

  /** What the validator requires of a commitment: hex text that sorts before `r`'s. */
  predicate CommitmentOk(s: string) {
    IsSha256Hex(s) && LexLess(Utf8(s), Utf8(MODULUS_HEX))
  }

  ghost predicate AllLowerHex(s: string) {
    forall i :: 0 <= i < |s| ==> IsLowerHex(s[i])
  }

  function Nibbles(s: string): (ns: seq<int>)
    ensures |ns| == |s|
  {
    seq(|s|, i requires 0 <= i < |s| => match Nibble(s[i]) case Some(n) => n case None => 0)
  }

  /** Hex text sorts like its nibbles. */
  lemma {:induction false} HexOrder(a: string, b: string)
    requires |a| == |b| && AllLowerHex(a) && AllLowerHex(b)
    ensures LexLess(Utf8(a), Utf8(b)) <==> LexLess(Nibbles(a), Nibbles(b))
  {
    if a != [] {
      assert IsLowerHex(a[0]) && IsLowerHex(b[0]);
      HexOrder(a[1..], b[1..]);
      assert Utf8(a) == [a[0] as int] + Utf8(a[1..]) && Utf8(b) == [b[0] as int] + Utf8(b[1..]);
      assert Utf8(a)[1..] == Utf8(a[1..]) && Utf8(b)[1..] == Utf8(b[1..]);
      assert Nibbles(a)[1..] == Nibbles(a[1..]) && Nibbles(b)[1..] == Nibbles(b[1..]);
    }
  }

  /** Two nibbles a byte: hex text and the bytes it decodes to are the same number. */
  lemma {:induction false} HexNumber(s: string)
    requires |s| % 2 == 0 && AllLowerHex(s)
    ensures HexDecode(s).Some?
    ensures Value(16, Nibbles(s)) == Number(HexDecode(s).value)
    decreases |s|
  {
    LowerHexDecodes(s);
    if s != [] {
      hide Nibbles, HexDecode, IsLowerHex;
      var n := |s| - 2;
      HexNumber(s[..n]);
      HexSplit(s);
      var x, y := Nibbles(s)[n], Nibbles(s)[n+1];
      ValueSnoc(16, Nibbles(s[..n]), x);
      ValueSnoc(16, Nibbles(s[..n]) + [x], y);
      ValueSnoc(256, HexDecode(s[..n]).value, 16 * x + y);
      assert Nibbles(s) == Nibbles(s[..n]) + [x] + [y];
    }
  }

  lemma LowerHexDecodes(s: string)
    requires |s| % 2 == 0 && AllLowerHex(s)
    ensures HexDecode(s).Some?
  {
    assert forall i :: 0 <= i < |s| ==> IsLowerHex(s[i]) ==> Nibble(s[i]).Some?;
  }

  lemma ValueSnoc(base: nat, a: seq<int>, d: int)
    ensures Value(base, a + [d]) == Value(base, a) * base + d
  {
    assert (a + [d])[..|a|] == a;
  }

  lemma HexSplit(s: string)
    requires |s| % 2 == 0 && s != [] && HexDecode(s).Some? && HexDecode(s[..|s|-2]).Some?
    ensures var n := |s| - 2; var ns := Nibbles(s);
            ns == Nibbles(s[..n]) + [ns[n]] + [ns[n+1]] &&
            HexDecode(s).value == HexDecode(s[..n]).value + [16 * ns[n] + ns[n+1]]
  {
    var n := |s| - 2;
    var ns, bs := Nibbles(s), HexDecode(s).value;
    assert ns[..n] == Nibbles(s[..n]);
    assert bs[..n/2] == HexDecode(s[..n]).value;
    assert bs[n/2] == 16 * ns[n] + ns[n+1];
  }

  /** Eight lowercase hex characters and the four bytes they spell. */
  ghost predicate SpellsWord(w: string, bs: seq<byte>) {
    |w| == 8 && |bs| == 4 && AllLowerHex(w) && HexDecode(w) == Some(bs)
  }

  lemma WordSpelled(w: string, bs: seq<byte>)
    requires |w| == 8 && |bs| == 4
    requires IsLowerHex(w[0]) && IsLowerHex(w[1]) && IsLowerHex(w[2]) && IsLowerHex(w[3])
    requires IsLowerHex(w[4]) && IsLowerHex(w[5]) && IsLowerHex(w[6]) && IsLowerHex(w[7])
    requires bs[0] == 16 * Nibble(w[0]).value as int + Nibble(w[1]).value
    requires bs[1] == 16 * Nibble(w[2]).value as int + Nibble(w[3]).value
    requires bs[2] == 16 * Nibble(w[4]).value as int + Nibble(w[5]).value
    requires bs[3] == 16 * Nibble(w[6]).value as int + Nibble(w[7]).value
    ensures SpellsWord(w, bs)
  {
    assert IsHex(w);
    assert HexByte(w, 0) == bs[0] && HexByte(w, 1) == bs[1] && HexByte(w, 2) == bs[2] && HexByte(w, 3) == bs[3];
    assert HexDecode(w).value == bs;
  }

  lemma AppendWord(s: string, bs: seq<byte>, w: string, ws: seq<byte>)
    requires |s| % 2 == 0 && AllLowerHex(s) && HexDecode(s) == Some(bs)
    requires SpellsWord(w, ws)
    ensures AllLowerHex(s + w) && HexDecode(s + w) == Some(bs + ws)
  {
    var t := s + w;
    assert forall i :: 0 <= i < |w| ==> t[|s| + i] == w[i];
    assert IsHex(t);
    forall k | 0 <= k < |t| / 2 ensures HexByte(t, k) == (bs + ws)[k] {
      if k >= |bs| { assert HexByte(t, k) == HexByte(w, k - |bs|); } else { assert HexByte(t, k) == HexByte(s, k); }
    }
    assert HexDecode(t).value == bs + ws;
  }

  lemma ModulusHeadSpelled()
    ensures |MODULUS_HEX_HEAD| == 32 && AllLowerHex(MODULUS_HEX_HEAD) &&
            HexDecode(MODULUS_HEX_HEAD) == Some(MODULUS_HEAD)
  {
    hide HexDecode;
    WordSpelled("30644e72", [0x30, 0x64, 0x4e, 0x72]);
    WordSpelled("e131a029", [0xe1, 0x31, 0xa0, 0x29]);
    WordSpelled("b85045b6", [0xb8, 0x50, 0x45, 0xb6]);
    WordSpelled("8181585d", [0x81, 0x81, 0x58, 0x5d]);
    var t, bs := "30644e72", [0x30, 0x64, 0x4e, 0x72];
    AppendWord(t, bs, "e131a029", [0xe1, 0x31, 0xa0, 0x29]);
    t, bs := t + "e131a029", bs + [0xe1, 0x31, 0xa0, 0x29];
    AppendWord(t, bs, "b85045b6", [0xb8, 0x50, 0x45, 0xb6]);
    t, bs := t + "b85045b6", bs + [0xb8, 0x50, 0x45, 0xb6];
    AppendWord(t, bs, "8181585d", [0x81, 0x81, 0x58, 0x5d]);
  }

  /** The two spellings of the modulus are the same bytes. */
  lemma ModulusSpellings()
    ensures IsSha256Hex(MODULUS_HEX)
    ensures HexDecode(MODULUS_HEX) == Some(MODULUS)
  {
    hide HexDecode;
    ModulusHeadSpelled();
    WordSpelled("2833e848", [0x28, 0x33, 0xe8, 0x48]);
    WordSpelled("79b97091", [0x79, 0xb9, 0x70, 0x91]);
    WordSpelled("43e1f593", [0x43, 0xe1, 0xf5, 0x93]);
    WordSpelled("f0000001", [0xf0, 0x00, 0x00, 0x01]);
    var t, bs := MODULUS_HEX_HEAD, MODULUS_HEAD;
    AppendWord(t, bs, "2833e848", [0x28, 0x33, 0xe8, 0x48]);
    t, bs := t + "2833e848", bs + [0x28, 0x33, 0xe8, 0x48];
    AppendWord(t, bs, "79b97091", [0x79, 0xb9, 0x70, 0x91]);
    t, bs := t + "79b97091", bs + [0x79, 0xb9, 0x70, 0x91];
    AppendWord(t, bs, "43e1f593", [0x43, 0xe1, 0xf5, 0x93]);
    t, bs := t + "43e1f593", bs + [0x43, 0xe1, 0xf5, 0x93];
    AppendWord(t, bs, "f0000001", [0xf0, 0x00, 0x00, 0x01]);
  }

  /** The validator accepts a 64-character lowercase hex commitment exactly when its
      bytes are a canonical field element: text, byte and number order agree. */
  lemma CommitmentIsCanonical(s: string)
    requires IsSha256Hex(s)
    ensures HexDecode(s).Some? && |HexDecode(s).value| == 32
    ensures CommitmentOk(s) <==> Number(HexDecode(s).value) < Number(MODULUS)
    ensures CommitmentOk(s) <==> LexLess(HexDecode(s).value, MODULUS)
  {
    ModulusSpellings();
    HexOrder(s, MODULUS_HEX);
    LexIsNumeric(16, Nibbles(s), Nibbles(MODULUS_HEX));
    HexNumber(s);
    HexNumber(MODULUS_HEX);
    LexIsNumeric(256, HexDecode(s).value, MODULUS);
  }

  /** The 32-byte decoder's loop is `HexDecode`, refusing any other length. */
  method HexBytes32(s: string) returns (r: Option<seq<byte>>)
    ensures r == if |s| == 64 then HexDecode(s) else None
    ensures r.Some? ==> |r.value| == 32
  {
    if |s| != 64 { return None; }
    var out := new byte[32](_ => 0);
    for i := 0 to 32
      invariant forall k :: 0 <= k < 2 * i ==> Nibble(s[k]).Some?
      invariant IsHex(s) ==> forall k :: 0 <= k < i ==> out[k] == HexByte(s, k)
    {
      var hi, lo := Nibble(s[2*i]), Nibble(s[2*i + 1]);
      if hi.None? || lo.None? { return None; }
      var n: int := hi.value;
      out[i] := 16 * n + lo.value;
    }
    assert IsHex(s);
    assert out[..] == HexDecode(s).value;
    return Some(out[..]);
  }

  // ----- splitting -----

  /** The two zero-extended halves: each below 2^128, hence canonical, and together
      they determine the value. */
  method SplitHiLo(x: Bytes32) returns (hi: Bytes32, lo: Bytes32)
    ensures Number(x) == Number(hi) * Pow(256, 16) + Number(lo)
    ensures 0 <= Number(hi) < Pow(256, 16) && 0 <= Number(lo) < Pow(256, 16)
    ensures Number(hi) < Number(MODULUS) && Number(lo) < Number(MODULUS)
    ensures hi[16..] + lo[16..] == x
  {
    hi := ZeroExtend(x[..16]);
    lo := ZeroExtend(x[16..]);
    assert x == x[..16] + x[16..];
    ValueAppend(256, x[..16], x[16..]);
    LowHalf(hi);
    LowHalf(lo);
  }

  /** Copy 16 bytes into the low half of a zeroed 32-byte buffer. */
  method ZeroExtend(half: seq<byte>) returns (word: Bytes32)
    requires |half| == 16
    ensures word[16..] == half && forall k :: 0 <= k < 16 ==> word[k] == 0
  {
    var buf := new byte[32](_ => 0);
    for i := 0 to 16
      invariant forall k :: 0 <= k < 16 ==> buf[k] == 0
      invariant buf[16..16+i] == half[..i]
    {
      buf[16 + i] := half[i];
    }
    word := buf[..];
    assert word[16..] == buf[16..32];
  }

  lemma LowHalf(x: Bytes32)
    requires forall k :: 0 <= k < 16 ==> x[k] == 0
    ensures Number(x) == Value(256, x[16..])
    ensures 0 <= Number(x) < Pow(256, 16)
    ensures Number(x) < Number(MODULUS)
  {
    var zeros := x[..16];
    assert x == zeros + x[16..];
    ValueAppend(256, zeros, x[16..]);
    ZeroValue(zeros);
    ValueRange(256, x[16..]);
    assert LexLess(x, MODULUS);
    LexIsNumeric(256, x, MODULUS);
  }

  lemma {:induction false} ZeroValue(s: seq<int>)
    requires forall k :: 0 <= k < |s| ==> s[k] == 0
    ensures Value(256, s) == 0
  {
    if s != [] { ZeroValue(s[..|s|-1]); }
  }
}
