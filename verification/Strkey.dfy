/** The strkey checksum (crates/perch-ir/src/validate.rs): base-32 decoding with a
    5-bit accumulator, then CRC16-XModem over the 33-byte body.

    Everything is bit-level, so characters, bytes and checksums are bit-vectors. */
module Strkey {
  import opened Base

  const CHARS := 56
  const BYTES := 35
  const BODY := 33

  /** The 5-bit value of a base-32 character. */
  function Quintet(c: char): Option<bv8> {
    match c
    case 'A' => Some(0) case 'B' => Some(1) case 'C' => Some(2) case 'D' => Some(3)
    case 'E' => Some(4) case 'F' => Some(5) case 'G' => Some(6) case 'H' => Some(7)
    case 'I' => Some(8) case 'J' => Some(9) case 'K' => Some(10) case 'L' => Some(11)
    case 'M' => Some(12) case 'N' => Some(13) case 'O' => Some(14) case 'P' => Some(15)
    case 'Q' => Some(16) case 'R' => Some(17) case 'S' => Some(18) case 'T' => Some(19)
    case 'U' => Some(20) case 'V' => Some(21) case 'W' => Some(22) case 'X' => Some(23)
    case 'Y' => Some(24) case 'Z' => Some(25) case '2' => Some(26) case '3' => Some(27)
    case '4' => Some(28) case '5' => Some(29) case '6' => Some(30) case '7' => Some(31)
    case _ => None
  }

  lemma QuintetInjective(c: char, d: char)
    requires Quintet(c).Some? && Quintet(c) == Quintet(d)
    ensures c == d
  {
  }

  lemma QuintetSmall(c: char)
    requires Quintet(c).Some?
    ensures Quintet(c).value < 32
  {
  }

  predicate IsBase32(s: string) {
    |s| == CHARS && forall i :: 0 <= i < CHARS ==> Quintet(s[i]).Some?
  }

  function Quintets(s: string): (q: seq<bv8>)
    requires IsBase32(s)
    ensures |q| == CHARS
  {
    seq(CHARS, i requires 0 <= i < CHARS => Quintet(s[i]).value)
  }

  // The five bytes that eight quintets `a..h` spell, each from the two or three
  // quintets it overlaps.
  function Byte0(a: bv8, b: bv8): bv8 { (a << 3) | (b >> 2) }
  function Byte1(b: bv8, c: bv8, d: bv8): bv8 { (b << 6) | (c << 1) | (d >> 4) }
  function Byte2(d: bv8, e: bv8): bv8 { (d << 4) | (e >> 1) }
  function Byte3(e: bv8, f: bv8, g: bv8): bv8 { (e << 7) | (f << 2) | (g >> 3) }
  function Byte4(g: bv8, h: bv8): bv8 { (g << 5) | h }

  function ByteOf(q0: bv8, q1: bv8, q2: bv8, q3: bv8, q4: bv8, q5: bv8, q6: bv8, q7: bv8, r: nat): bv8 {
    match r
    case 0 => Byte0(q0, q1)
    case 1 => Byte1(q1, q2, q3)
    case 2 => Byte2(q3, q4)
    case 3 => Byte3(q4, q5, q6)
    case _ => Byte4(q6, q7)
  }

  /** Byte `r` of 40-bit group `g` of the 56 quintets. */
  function GroupByte(q: seq<bv8>, g: nat, r: nat): bv8
    requires |q| == CHARS && g < 7
  {
    var at := 8 * g;
    ByteOf(q[at], q[at+1], q[at+2], q[at+3], q[at+4], q[at+5], q[at+6], q[at+7], r)
  }

  /** The 35 bytes that 56 quintets spell. */
  function Bytes(q: seq<bv8>): (d: seq<bv8>)
    requires |q| == CHARS
    ensures |d| == BYTES
  {
    seq(BYTES, j requires 0 <= j < BYTES => GroupByte(q, j / 5, j % 5))
  }

  // ----- the radix change is exact -----

  function Word8(q0: bv8, q1: bv8, q2: bv8, q3: bv8, q4: bv8, q5: bv8, q6: bv8, q7: bv8): bv40 {
    ((q0 as bv40) << 35) | ((q1 as bv40) << 30) | ((q2 as bv40) << 25) | ((q3 as bv40) << 20)
    | ((q4 as bv40) << 15) | ((q5 as bv40) << 10) | ((q6 as bv40) << 5) | (q7 as bv40)
  }

  function Word5(b0: bv8, b1: bv8, b2: bv8, b3: bv8, b4: bv8): bv40 {
    ((b0 as bv40) << 32) | ((b1 as bv40) << 24) | ((b2 as bv40) << 16) | ((b3 as bv40) << 8) | (b4 as bv40)
  }

  /** Eight base-32 digits and their five bytes are the same 40-bit number. */
  lemma SameWord(q0: bv8, q1: bv8, q2: bv8, q3: bv8, q4: bv8, q5: bv8, q6: bv8, q7: bv8)
    requires q0 < 32 && q1 < 32 && q2 < 32 && q3 < 32 && q4 < 32 && q5 < 32 && q6 < 32 && q7 < 32
    ensures Word8(q0, q1, q2, q3, q4, q5, q6, q7) ==
            Word5(ByteOf(q0, q1, q2, q3, q4, q5, q6, q7, 0), ByteOf(q0, q1, q2, q3, q4, q5, q6, q7, 1),
                  ByteOf(q0, q1, q2, q3, q4, q5, q6, q7, 2), ByteOf(q0, q1, q2, q3, q4, q5, q6, q7, 3),
                  ByteOf(q0, q1, q2, q3, q4, q5, q6, q7, 4))
  {
  }

  // ----- CRC16-XModem -----

  predicate Top(crc: bv16) {
    crc & 0x8000 != 0
  }

  function Double(crc: bv16): bv16 {
    crc << 1
  }

  function Xor(a: bv16, b: bv16): bv16 {
    a ^ b
  }

  function Shift1(crc: bv16): bv16 {
    if Top(crc) then Xor(Double(crc), 0x1021) else Double(crc)
  }

  function Shifts(crc: bv16, n: nat): bv16 {
    if n == 0 then crc else Shift1(Shifts(crc, n - 1))
  }

  function HighByte(b: bv8): bv16 {
    (b as bv16) << 8
  }

  function Mix(crc: bv16, b: bv8): bv16 {
    Xor(crc, HighByte(b))
  }

  function Absorb(crc: bv16, b: bv8): bv16 {
    Shifts(Mix(crc, b), 8)
  }

  /** The checksum register after `data`, starting from `crc`. */
  function Crc(data: seq<bv8>, crc: bv16): bv16 {
    if data == [] then crc else Absorb(Crc(data[..|data|-1], crc), data[|data|-1])
  }

  function Stored(d: seq<bv8>): bv16
    requires |d| == BYTES
  {
    (d[33] as bv16) | ((d[34] as bv16) << 8)
  }

  predicate ChecksumOk(s: string) {
    IsBase32(s) && var d := Bytes(Quintets(s)); Crc(d[..BODY], 0) == Stored(d)
  }

  predicate IsStrkeyShape(s: string, leads: string) {
    |s| == CHARS && s[0] in leads && IsBase32(s) && ChecksumOk(s)
  }

  ghost predicate AllQuintets(q: seq<bv8>) {
    |q| == CHARS && forall i :: 0 <= i < CHARS ==> q[i] < 32
  }

  lemma QuintetsSmall(s: string)
    requires IsBase32(s)
    ensures AllQuintets(Quintets(s))
  {
    forall i | 0 <= i < CHARS ensures Quintets(s)[i] < 32 { QuintetSmall(s[i]); }
  }

  // ----- the decoding loop -----

  function Push5(buf: bv32, v: bv8): bv32 {
    (buf << 5) | (v as bv32)
  }

  /** The byte `bits` above the bottom of the accumulator. */
  function ReadAt(buf: bv32, bits: nat): bv8 {
    match bits
    case 0 => LowByte(buf) case 1 => LowByte(buf >> 1) case 2 => LowByte(buf >> 2)
    case 3 => LowByte(buf >> 3) case 4 => LowByte(buf >> 4) case 5 => LowByte(buf >> 5)
    case 6 => LowByte(buf >> 6) case _ => LowByte(buf >> 7)
  }

  function LowByte(w: bv32): bv8 {
    (w & 0xFF) as bv8
  }

  function Recent(buf: bv32): bv32 { buf & 0x1F }
  function Recent2(buf: bv32): bv32 { (buf >> 5) & 0x1F }
  function Recent3(buf: bv32): bv32 { (buf >> 10) & 0x1F }

  /** The low 15 bits of the accumulator hold the last three quintets. */
  ghost predicate Window(buf: bv32, q: seq<bv8>, k: nat)
    requires k <= |q|
  {
    && (k >= 1 ==> Recent(buf) == q[k-1] as bv32)
    && (k >= 2 ==> Recent2(buf) == q[k-2] as bv32)
    && (k >= 3 ==> Recent3(buf) == q[k-3] as bv32)
  }

  lemma PushRecent(buf: bv32, v: bv8)
    requires v < 32
    ensures Recent(Push5(buf, v)) == v as bv32
    ensures Recent2(Push5(buf, v)) == Recent(buf)
    ensures Recent3(Push5(buf, v)) == Recent2(buf)
  {
  }

  /** Reading two or three quintets at the right offset gives the byte they span. */
  lemma ReadBytes(buf: bv32, a: bv8, b: bv8, c: bv8)
    requires a < 32 && b < 32 && c < 32
    requires Recent(buf) == c as bv32 && Recent2(buf) == b as bv32 && Recent3(buf) == a as bv32
    ensures ReadAt(buf, 0) == Byte4(b, c)
    ensures ReadAt(buf, 1) == Byte2(b, c)
    ensures ReadAt(buf, 3) == Byte3(a, b, c)
    ensures ReadAt(buf, 4) == Byte1(a, b, c)
  {
  }

  lemma ReadPair(buf: bv32, b: bv8, c: bv8)
    requires b < 32 && c < 32
    requires Recent(buf) == c as bv32 && Recent2(buf) == b as bv32
    ensures ReadAt(buf, 2) == Byte0(b, c)
  {
  }

  /** The character of a group that completes byte `u`, counted from 1. */
  function LastChar(u: nat): nat {
    match u case 0 => 2 case 1 => 4 case 2 => 5 case 3 => 7 case _ => 8
  }

  /** Bits left in the accumulator once byte `u` of a group is out. */
  function Leftover(u: nat): nat {
    match u case 0 => 2 case 1 => 4 case 2 => 1 case 3 => 3 case _ => 0
  }

  lemma GroupByteDue(buf: bv32, q: seq<bv8>, g: nat, u: nat)
    requires |q| == CHARS && g < 7 && u < 5
    requires Window(buf, q, 8 * g + LastChar(u))
    requires forall i :: 0 <= i < CHARS ==> q[i] < 32
    ensures ReadAt(buf, Leftover(u)) == GroupByte(q, g, u)
  {
    hide ReadAt, Recent, Recent2, Recent3, Byte0, Byte1, Byte2, Byte3, Byte4;
    var k := 8 * g + LastChar(u);
    if u == 0 {
      ReadPair(buf, q[k-2], q[k-1]);
    } else {
      ReadBytes(buf, q[k-3], q[k-2], q[k-1]);
    }
  }

  /** When byte `j` falls due after `k` characters with `bits` left over, the
      accumulator holds it. */
  lemma ByteDue(buf: bv32, q: seq<bv8>, k: nat, j: nat, bits: nat)
    requires |q| == CHARS && k <= CHARS
    requires 5 * k == 8 * (j + 1) + bits && bits < 5
    requires Window(buf, q, k)
    requires forall i :: 0 <= i < CHARS ==> q[i] < 32
    ensures j < BYTES && ReadAt(buf, bits) == Bytes(q)[j]
  {
    var g, u := j / 5, j % 5;
    assert k == 8 * g + LastChar(u) && bits == Leftover(u);
    GroupByteDue(buf, q, g, u);
  }

  /** After `k` characters the accumulator window and the bytes so far are right. */
  ghost predicate Decoding(q: seq<bv8>, k: nat, buf: bv32, done: seq<bv8>) {
    |q| == CHARS && k <= CHARS && Window(buf, q, k) && done <= Bytes(q)
  }

  lemma WindowStep(q: seq<bv8>, k: nat, buf: bv32)
    requires k < |q| && Window(buf, q, k) && q[k] < 32
    ensures Window(Push5(buf, q[k]), q, k + 1)
  {
    hide Push5, Recent, Recent2, Recent3;
    PushRecent(buf, q[k]);
  }

  lemma DecodeStep(q: seq<bv8>, k: nat, buf: bv32, done: seq<bv8>, bits: nat)
    requires Decoding(q, k, buf, done) && AllQuintets(q) && k < CHARS
    requires 5 * k == 8 * |done| + bits && bits < 8
    ensures var buf' := Push5(buf, q[k]);
            && Decoding(q, k + 1, buf', done)
            && (bits + 5 >= 8 ==> |done| < BYTES && Decoding(q, k + 1, buf', done + [ReadAt(buf', bits + 5 - 8)]))
  {
    hide Push5, ReadAt, Window, GroupByte;
    WindowStep(q, k, buf);
    if bits + 5 >= 8 {
      ByteDue(Push5(buf, q[k]), q, k + 1, |done|, bits + 5 - 8);
    }
  }

  /** The accumulator loop decodes exactly the base-32 strings, to the bytes they
      spell. Both `out` guards are dead: 56 characters always fill exactly 35 bytes. */
  method DecodeBase32(s: string) returns (data: Option<array<bv8>>)
    requires |s| == CHARS
    ensures data.Some? <==> IsBase32(s)
    ensures data.Some? ==> fresh(data.value) && data.value.Length == BYTES && data.value[..] == Bytes(Quintets(s))
  {
    hide Push5, ReadAt, Window, Bytes, Quintet;
    var d := new bv8[BYTES](_ => 0);
    var buf: bv32, bits: nat, out: nat := 0, 0, 0;
    if IsBase32(s) { NothingDecoded(Quintets(s)); QuintetsSmall(s); }
    for k := 0 to CHARS
      invariant forall i :: 0 <= i < k ==> Quintet(s[i]).Some?
      invariant 5 * k == 8 * out + bits && bits < 8 && out <= BYTES
      invariant IsBase32(s) ==> Decoding(Quintets(s), k, buf, d[..out])
    {
      var v := Quintet(s[k]);
      if v.None? { return None; }
      if IsBase32(s) { DecodeStep(Quintets(s), k, buf, d[..out], bits); }
      buf := Push5(buf, v.value);
      bits := bits + 5;
      if bits >= 8 {
        bits := bits - 8;
        if out >= BYTES { return None; }
        ghost var done := d[..out];
        d[out] := ReadAt(buf, bits);
        out := out + 1;
        assert d[..out] == done + [ReadAt(buf, bits)];
      }
    }
    if out != BYTES { return None; }
    assert IsBase32(s);
    assert d[..out] == d[..];
    data := Some(d);
  }

  lemma NothingDecoded(q: seq<bv8>)
    requires |q| == CHARS
    ensures Decoding(q, 0, 0, [])
  {
  }

  method CrcOf(data: array<bv8>) returns (crc: bv16)
    requires data.Length == BYTES
    ensures crc == Crc(data[..BODY], 0)
  {
    crc := 0;
    for i := 0 to BODY
      invariant crc == Crc(data[..i], 0)
    {
      assert data[..i+1][..i] == data[..i];
      var mixed := Mix(crc, data[i]);
      crc := mixed;
      for n := 0 to 8
        invariant crc == Shifts(mixed, n)
      {
        crc := Shift1(crc);
      }
    }
  }

  method StrkeyChecksumOk(s: string) returns (ok: bool)
    ensures ok <==> ChecksumOk(s)
  {
    if |s| != CHARS { return false; }
    var data := DecodeBase32(s);
    if data.None? { return false; }
    var crc := CrcOf(data.value);
    var d := data.value[..];
    assert data.value[..BODY] == d[..BODY];
    ok := crc == Stored(d);
  }

  // ----- a body has one spelling -----

  lemma GroupInjective(q0: bv8, q1: bv8, q2: bv8, q3: bv8, q4: bv8, q5: bv8, q6: bv8, q7: bv8,
                       p0: bv8, p1: bv8, p2: bv8, p3: bv8, p4: bv8, p5: bv8, p6: bv8, p7: bv8)
    requires q0 < 32 && q1 < 32 && q2 < 32 && q3 < 32 && q4 < 32 && q5 < 32 && q6 < 32 && q7 < 32
    requires p0 < 32 && p1 < 32 && p2 < 32 && p3 < 32 && p4 < 32 && p5 < 32 && p6 < 32 && p7 < 32
    requires ByteOf(q0, q1, q2, q3, q4, q5, q6, q7, 0) == ByteOf(p0, p1, p2, p3, p4, p5, p6, p7, 0)
    requires ByteOf(q0, q1, q2, q3, q4, q5, q6, q7, 1) == ByteOf(p0, p1, p2, p3, p4, p5, p6, p7, 1)
    requires ByteOf(q0, q1, q2, q3, q4, q5, q6, q7, 2) == ByteOf(p0, p1, p2, p3, p4, p5, p6, p7, 2)
    requires ByteOf(q0, q1, q2, q3, q4, q5, q6, q7, 3) == ByteOf(p0, p1, p2, p3, p4, p5, p6, p7, 3)
    requires ByteOf(q0, q1, q2, q3, q4, q5, q6, q7, 4) == ByteOf(p0, p1, p2, p3, p4, p5, p6, p7, 4)
    ensures q0 == p0 && q1 == p1 && q2 == p2 && q3 == p3 && q4 == p4 && q5 == p5 && q6 == p6 && q7 == p7
  {
  }

  lemma BytesInjective(q: seq<bv8>, p: seq<bv8>)
    requires AllQuintets(q) && AllQuintets(p) && Bytes(q) == Bytes(p)
    ensures q == p
  {
    hide GroupByte;
    forall i | 0 <= i < CHARS ensures q[i] == p[i] {
      var g := i / 8;
      forall u | 0 <= u < 5 ensures GroupByte(q, g, u) == GroupByte(p, g, u) {
        assert Bytes(q)[5 * g + u] == Bytes(p)[5 * g + u];
        assert (5 * g + u) / 5 == g && (5 * g + u) % 5 == u;
      }
      SameGroup(q, p, g);
    }
  }

  lemma SameGroup(q: seq<bv8>, p: seq<bv8>, g: nat)
    requires AllQuintets(q) && AllQuintets(p) && g < 7
    requires forall u :: 0 <= u < 5 ==> GroupByte(q, g, u) == GroupByte(p, g, u)
    ensures forall i :: 8 * g <= i < 8 * g + 8 ==> q[i] == p[i]
  {
    hide ByteOf;
    var at := 8 * g;
    assert GroupByte(q, g, 0) == GroupByte(p, g, 0) && GroupByte(q, g, 1) == GroupByte(p, g, 1);
    assert GroupByte(q, g, 2) == GroupByte(p, g, 2) && GroupByte(q, g, 3) == GroupByte(p, g, 3);
    assert GroupByte(q, g, 4) == GroupByte(p, g, 4);
    GroupInjective(q[at], q[at+1], q[at+2], q[at+3], q[at+4], q[at+5], q[at+6], q[at+7],
                   p[at], p[at+1], p[at+2], p[at+3], p[at+4], p[at+5], p[at+6], p[at+7]);
  }

  function Body(s: string): seq<bv8>
    requires IsBase32(s)
  {
    Bytes(Quintets(s))[..BODY]
  }

  lemma StoredInjective(d: seq<bv8>, e: seq<bv8>)
    requires |d| == |e| == BYTES
    requires Stored(d) == Stored(e)
    ensures d[33] == e[33] && d[34] == e[34]
  {
    var a, b, c, f := d[33], d[34], e[33], e[34];
    assert (a as bv16) | ((b as bv16) << 8) == (c as bv16) | ((f as bv16) << 8);
  }

  /** Two accepted strkeys with the same 33-byte body are the same string. */
  lemma BodyDetermines(s: string, t: string)
    requires ChecksumOk(s) && ChecksumOk(t)
    requires Body(s) == Body(t)
    ensures s == t
  {
    hide Crc, GroupByte, Stored, Quintet;
    var d, e := Bytes(Quintets(s)), Bytes(Quintets(t));
    StoredInjective(d, e);
    assert forall j :: 0 <= j < BODY ==> d[j] == d[..BODY][j] == e[..BODY][j] == e[j];
    assert d == e;
    QuintetsSmall(s);
    QuintetsSmall(t);
    BytesInjective(Quintets(s), Quintets(t));
    forall i | 0 <= i < CHARS ensures s[i] == t[i] {
      assert Quintets(s)[i] == Quintets(t)[i];
      QuintetInjective(s[i], t[i]);
    }
  }

  // ----- every single-character change is rejected -----

  lemma {:induction false} ShiftsLinear(a: bv16, b: bv16, n: nat)
    ensures Xor(Shifts(a, n), Shifts(b, n)) == Shifts(Xor(a, b), n)
  {
    hide Shift1, Xor;
    if n > 0 {
      ShiftsLinear(a, b, n - 1);
      Shift1Linear(Shifts(a, n - 1), Shifts(b, n - 1));
    }
  }

  lemma Shift1Linear(a: bv16, b: bv16)
    ensures Xor(Shift1(a), Shift1(b)) == Shift1(Xor(a, b))
  {
    hide Top, Double, Xor;
    DoubleXor(a, b);
    TopXor(a, b);
    XorShuffle(Double(a), Double(b), 0x1021);
  }

  lemma DoubleXor(a: bv16, b: bv16)
    ensures Xor(Double(a), Double(b)) == Double(Xor(a, b))
  {
  }

  lemma TopXor(a: bv16, b: bv16)
    ensures Top(Xor(a, b)) <==> (Top(a) != Top(b))
  {
  }

  lemma XorAssoc(a: bv16, b: bv16, c: bv16)
    ensures Xor(Xor(a, b), c) == Xor(a, Xor(b, c))
  {
  }

  lemma XorComm(a: bv16, b: bv16)
    ensures Xor(a, b) == Xor(b, a)
  {
  }

  lemma XorTwice(a: bv16, b: bv16)
    ensures Xor(a, Xor(a, b)) == b
  {
  }

  lemma XorShuffle(p: bv16, q: bv16, m: bv16)
    ensures Xor(Xor(p, m), Xor(q, m)) == Xor(p, q)
    ensures Xor(Xor(p, m), q) == Xor(Xor(p, q), m)
    ensures Xor(p, Xor(q, m)) == Xor(Xor(p, q), m)
  {
    hide Xor;
    XorComm(q, m);
    XorTwice(m, q);
    XorAssoc(p, m, Xor(q, m));
    XorAssoc(p, m, q);
    XorAssoc(p, q, m);
  }

  lemma XorCancel(p: bv16, q: bv16, m: bv16)
    requires Xor(p, m) == Xor(q, m)
    ensures p == q
  {
  }

  lemma ShiftedOutBit(a: bv16)
    ensures Shift1(a) & 1 == if Top(a) then 1 else 0
  {
  }

  lemma DoubleInjective(a: bv16, b: bv16)
    requires Double(a) == Double(b) && Top(a) == Top(b)
    ensures a == b
  {
  }

  /** The feedback constant is odd, so the shifted-out bit is recorded in the lowest. */
  lemma Shift1Injective(a: bv16, b: bv16)
    requires Shift1(a) == Shift1(b)
    ensures a == b
  {
    hide Top, Double, Xor;
    ShiftedOutBit(a);
    ShiftedOutBit(b);
    if Top(a) { XorCancel(Double(a), Double(b), 0x1021); }
    DoubleInjective(a, b);
  }

  lemma {:induction false} ShiftsInjective(a: bv16, b: bv16, n: nat)
    requires Shifts(a, n) == Shifts(b, n)
    ensures a == b
  {
    if n > 0 {
      Shift1Injective(Shifts(a, n - 1), Shifts(b, n - 1));
      ShiftsInjective(a, b, n - 1);
    }
  }

  lemma MixInjective(c: bv16, d: bv16, a: bv8, b: bv8)
    ensures Mix(c, a) == Mix(d, a) ==> c == d
    ensures Mix(c, a) == Mix(c, b) ==> a == b
  {
  }

  /** Registers that differ still differ after the same bytes. */
  lemma {:induction false} TailKeepsDifference(d: seq<bv8>, e: seq<bv8>, k: nat)
    requires |d| == |e| && k <= |d| && d[k..] == e[k..]
    requires Crc(d[..k], 0) != Crc(e[..k], 0)
    ensures Crc(d, 0) != Crc(e, 0)
    decreases |d|
  {
    if k == |d| {
      assert d[..k] == d && e[..k] == e;
    } else {
      var n := |d| - 1;
      assert d[..n][..k] == d[..k] && e[..n][..k] == e[..k];
      assert d[..n][k..] == d[k..][..n-k] && e[..n][k..] == e[k..][..n-k];
      TailKeepsDifference(d[..n], e[..n], k);
      assert d[n] == d[k..][n-k] && e[n] == e[k..][n-k];
      AbsorbInjective(Crc(d[..n], 0), Crc(e[..n], 0), d[n], e[n]);
    }
  }

  lemma AbsorbInjective(c: bv16, d: bv16, a: bv8, b: bv8)
    ensures a == b && Absorb(c, a) == Absorb(d, b) ==> c == d
    ensures c == d && Absorb(c, a) == Absorb(d, b) ==> a == b
  {
    if Absorb(c, a) == Absorb(d, b) {
      ShiftsInjective(Mix(c, a), Mix(d, b), 8);
      MixInjective(c, d, a, b);
    }
  }

  function Shift8(x: bv16): bv16 {
    Shift1(Shift1(Shift1(Shift1(Shift1(Shift1(Shift1(Shift1(x))))))))
  }

  lemma UnrollShifts(x: bv16)
    ensures Shifts(x, 8) == Shift8(x)
  {
    hide Shift1;
    ShiftsStep(x, 0); ShiftsStep(x, 1); ShiftsStep(x, 2); ShiftsStep(x, 3);
    ShiftsStep(x, 4); ShiftsStep(x, 5); ShiftsStep(x, 6); ShiftsStep(x, 7);
  }

  lemma ShiftsStep(x: bv16, n: nat)
    ensures Shifts(x, n + 1) == Shift1(Shifts(x, n)) && Shifts(x, 0) == x
  {
    hide Shift1;
  }

  /** A difference in the low four bits of a byte reaches both halves of the register. */
  lemma LowBurst(x: bv8)
    requires 0 < x < 16
    ensures Shifts(HighByte(x), 8) & 0xFF != 0
    ensures Shifts(HighByte(x), 8) & 0xFF00 != 0
  {
    UnrollShifts(HighByte(x));
    LowBurstBits(x);
  }

  lemma LowBurstBits(x: bv8)
    requires 0 < x < 16
    ensures Shift8(HighByte(x)) & 0xFF != 0
    ensures Shift8(HighByte(x)) & 0xFF00 != 0
  {
  }

  /** Two adjacent bytes that differ, the first in its low four bits at most, are told
      apart. */
  lemma TwoByteBurst(c: bv16, x: bv8, y: bv8, x': bv8, y': bv8)
    requires SmallBurst(x, y, x', y')
    ensures Absorb(Absorb(c, x), y) != Absorb(Absorb(c, x'), y')
  {
    hide Shifts, Xor, Mix, HighByte;
    var a, b := Absorb(c, x), Absorb(c, x');
    if Absorb(a, y) == Absorb(b, y') {
      ShiftsInjective(Mix(a, y), Mix(b, y'), 8);
      XorOfMix(a, y, b, y');
      AbsorbXor(c, x, x');
      if x != x' {
        LowBurst(x ^ x');
      }
      assert false;
    }
  }

  lemma XorOfMix(a: bv16, y: bv8, b: bv16, y': bv8)
    requires Mix(a, y) == Mix(b, y')
    ensures Xor(a, b) & 0xFF == 0
    ensures a == b ==> y == y'
  {
  }

  lemma MixXor(c: bv16, x: bv8, x': bv8)
    ensures Xor(Mix(c, x), Mix(c, x')) == HighByte(x ^ x')
  {
  }

  lemma AbsorbXor(c: bv16, x: bv8, x': bv8)
    ensures Xor(Absorb(c, x), Absorb(c, x')) == Shifts(HighByte(x ^ x'), 8)
  {
    hide Shifts, Xor, Mix, HighByte;
    ShiftsLinear(Mix(c, x), Mix(c, x'), 8);
    MixXor(c, x, x');
  }

  /** First byte of its group that character `r` touches; some also touch the next. */
  function FirstByte(r: nat): nat {
    match r
    case 0 => 0 case 1 => 0 case 2 => 1 case 3 => 1
    case 4 => 2 case 5 => 3 case 6 => 3 case _ => 4
  }

  predicate Straddles(r: nat) {
    r == 1 || r == 3 || r == 4 || r == 6
  }

  /** The byte pairs differ, by less than 16 in the first byte. */
  predicate SmallBurst(x: bv8, y: bv8, x': bv8, y': bv8) {
    x ^ x' < 16 && (x != x' || y != y')
  }

  lemma StraddlesBytes01(n: bv8, m: bv8, l: bv8, a: bv8, b: bv8)
    requires n < 32 && m < 32 && l < 32 && a < 32 && b < 32 && a != b
    ensures SmallBurst(Byte0(n, a), Byte1(a, m, l), Byte0(n, b), Byte1(b, m, l))
  {
  }

  lemma StraddlesBytes12(n: bv8, m: bv8, l: bv8, a: bv8, b: bv8)
    requires n < 32 && m < 32 && l < 32 && a < 32 && b < 32 && a != b
    ensures SmallBurst(Byte1(n, m, a), Byte2(a, l), Byte1(n, m, b), Byte2(b, l))
  {
  }

  lemma StraddlesBytes23(n: bv8, m: bv8, l: bv8, a: bv8, b: bv8)
    requires n < 32 && m < 32 && l < 32 && a < 32 && b < 32 && a != b
    ensures SmallBurst(Byte2(n, a), Byte3(a, m, l), Byte2(n, b), Byte3(b, m, l))
  {
  }

  lemma StraddlesBytes34(n: bv8, m: bv8, l: bv8, a: bv8, b: bv8)
    requires n < 32 && m < 32 && l < 32 && a < 32 && b < 32 && a != b
    ensures SmallBurst(Byte3(n, m, a), Byte4(a, l), Byte3(n, m, b), Byte4(b, l))
  {
  }

  lemma WithinByte(n: bv8, m: bv8, a: bv8, b: bv8)
    requires n < 32 && m < 32 && a < 32 && b < 32 && a != b
    ensures Byte0(a, m) != Byte0(b, m)
    ensures Byte1(n, a, m) != Byte1(n, b, m)
    ensures Byte3(n, a, m) != Byte3(n, b, m)
    ensures Byte4(n, a) != Byte4(n, b)
  {
  }

  /** `p` is `q` with character `r` of group `g` changed. */
  ghost predicate OneChange(q: seq<bv8>, p: seq<bv8>, g: nat, r: nat) {
    && AllQuintets(q) && AllQuintets(p) && g < 7 && r < 8
    && q[8*g + r] != p[8*g + r]
    && forall i :: 0 <= i < CHARS && i != 8 * g + r ==> q[i] == p[i]
  }

  lemma OtherBytesKept(q: seq<bv8>, p: seq<bv8>, g: nat, r: nat, v: nat)
    requires OneChange(q, p, g, r)
    requires v < 5 && v != FirstByte(r) && !(Straddles(r) && v == FirstByte(r) + 1)
    ensures GroupByte(q, g, v) == GroupByte(p, g, v)
  {
    hide Byte0, Byte1, Byte2, Byte3, Byte4;
  }

  lemma WithinChange(q: seq<bv8>, p: seq<bv8>, g: nat, r: nat)
    requires OneChange(q, p, g, r) && !Straddles(r)
    ensures GroupByte(q, g, FirstByte(r)) != GroupByte(p, g, FirstByte(r))
  {
    hide Byte0, Byte1, Byte2, Byte3, Byte4;
    var at := 8 * g;
    if r == 0 { WithinByte(0, q[at+1], q[at], p[at]); }
    else if r == 2 { WithinByte(q[at+1], q[at+3], q[at+2], p[at+2]); }
    else if r == 5 { WithinByte(q[at+4], q[at+6], q[at+5], p[at+5]); }
    else { WithinByte(q[at+6], 0, q[at+7], p[at+7]); }
  }

  lemma StraddlingChange(q: seq<bv8>, p: seq<bv8>, g: nat, r: nat)
    requires OneChange(q, p, g, r) && Straddles(r)
    ensures var u := FirstByte(r);
            SmallBurst(GroupByte(q, g, u), GroupByte(q, g, u + 1), GroupByte(p, g, u), GroupByte(p, g, u + 1))
  {
    hide Byte0, Byte1, Byte2, Byte3, Byte4, SmallBurst;
    var at := 8 * g;
    if r == 1 { StraddlesBytes01(q[at], q[at+2], q[at+3], q[at+1], p[at+1]); }
    else if r == 3 { StraddlesBytes12(q[at+1], q[at+2], q[at+4], q[at+3], p[at+3]); }
    else if r == 4 { StraddlesBytes23(q[at+3], q[at+5], q[at+6], q[at+4], p[at+4]); }
    else { StraddlesBytes34(q[at+4], q[at+5], q[at+7], q[at+6], p[at+6]); }
  }

  lemma OtherGroupKept(q: seq<bv8>, p: seq<bv8>, g: nat, r: nat, h: nat, v: nat)
    requires OneChange(q, p, g, r) && h < 7 && h != g
    ensures GroupByte(q, h, v) == GroupByte(p, h, v)
  {
    hide ByteOf;
  }

  /** Which bytes a one-character change touches, and that it touches some. */
  lemma ChangedBytes(q: seq<bv8>, p: seq<bv8>, g: nat, r: nat)
    requires OneChange(q, p, g, r)
    ensures var d, e, f := Bytes(q), Bytes(p), 5 * g + FirstByte(r);
            && (forall j :: 0 <= j < BYTES && j != f && !(Straddles(r) && j == f + 1) ==> d[j] == e[j])
            && (if Straddles(r) then SmallBurst(d[f], d[f+1], e[f], e[f+1]) else d[f] != e[f])
  {
    hide GroupByte, SmallBurst;
    var f := 5 * g + FirstByte(r);
    forall j | 0 <= j < BYTES && j != f && !(Straddles(r) && j == f + 1) ensures Bytes(q)[j] == Bytes(p)[j] {
      if j / 5 == g {
        OtherBytesKept(q, p, g, r, j % 5);
      } else {
        OtherGroupKept(q, p, g, r, j / 5, j % 5);
      }
    }
    assert f / 5 == g && f % 5 == FirstByte(r);
    if Straddles(r) {
      assert (f + 1) / 5 == g && (f + 1) % 5 == FirstByte(r) + 1;
      StraddlingChange(q, p, g, r);
    } else {
      WithinChange(q, p, g, r);
    }
  }

  /** A burst inside the body changes the register. */
  lemma BodyBurst(d: seq<bv8>, e: seq<bv8>, f: nat, straddles: bool)
    requires |d| == |e| && f < |d| && (straddles ==> f + 1 < |d|)
    requires forall j :: 0 <= j < |d| && j != f && !(straddles && j == f + 1) ==> d[j] == e[j]
    requires if straddles then SmallBurst(d[f], d[f+1], e[f], e[f+1]) else d[f] != e[f]
    ensures Crc(d, 0) != Crc(e, 0)
  {
    hide Absorb, SmallBurst;
    var c := Crc(d[..f], 0);
    assert d[..f] == e[..f];
    assert d[..f+1][..f] == d[..f] && e[..f+1][..f] == e[..f];
    if straddles {
      TwoByteBurst(c, d[f], d[f+1], e[f], e[f+1]);
      assert d[..f+2][..f+1] == d[..f+1] && e[..f+2][..f+1] == e[..f+1];
      TailKeepsDifference(d, e, f + 2);
    } else {
      AbsorbInjective(c, c, d[f], e[f]);
      TailKeepsDifference(d, e, f + 1);
    }
  }

  lemma StoredHighKept(d: seq<bv8>, e: seq<bv8>)
    requires |d| == |e| == BYTES && d[34] == e[34]
    ensures Xor(Stored(d), Stored(e)) & 0xFF00 == 0
  {
    var a, b, c := d[33], d[34], e[33];
    assert (((a as bv16) | ((b as bv16) << 8)) ^ ((c as bv16) | ((b as bv16) << 8))) & 0xFF00 == 0;
  }

  /** A burst across the last body byte and the first checksum byte is caught: the
      register would have to change in its low half only. */
  lemma BoundaryBurst(d: seq<bv8>, e: seq<bv8>)
    requires |d| == |e| == BYTES
    requires d[..32] == e[..32] && d[34] == e[34] && SmallBurst(d[32], d[33], e[32], e[33])
    ensures !(Crc(d[..BODY], 0) == Stored(d) && Crc(e[..BODY], 0) == Stored(e))
  {
    hide Xor, Shifts, Stored, Absorb, HighByte;
    assert d[..BODY][..32] == d[..32] && e[..BODY][..32] == e[..32];
    var c := Crc(d[..32], 0);
    AbsorbXor(c, d[32], e[32]);
    StoredHighKept(d, e);
    if d[32] != e[32] {
      LowBurst(d[32] ^ e[32]);
    } else if Stored(d) == Stored(e) {
      StoredInjective(d, e);
    }
  }

  /** Changing any single character of an accepted strkey makes it rejected. */
  lemma SingleErrorRejected(s: string, t: string, i: nat)
    requires ChecksumOk(s)
    requires |t| == CHARS && i < CHARS && s[i] != t[i]
    requires forall j :: 0 <= j < CHARS && j != i ==> s[j] == t[j]
    ensures !ChecksumOk(t)
  {
    hide Quintet, GroupByte, Crc, Stored, SmallBurst;
    if IsBase32(t) {
      var q, p, g, r := Quintets(s), Quintets(t), i / 8, i % 8;
      QuintetsSmall(s);
      QuintetsSmall(t);
      if q[i] == p[i] { QuintetInjective(s[i], t[i]); }
      assert OneChange(q, p, g, r);
      ChangedBytes(q, p, g, r);
      RejectChanged(Bytes(q), Bytes(p), 5 * g + FirstByte(r), Straddles(r));
    }
  }

  lemma RejectChanged(d: seq<bv8>, e: seq<bv8>, f: nat, straddles: bool)
    requires |d| == |e| == BYTES && f < BYTES && (straddles ==> f + 1 < BYTES)
    requires forall j :: 0 <= j < BYTES && j != f && !(straddles && j == f + 1) ==> d[j] == e[j]
    requires if straddles then SmallBurst(d[f], d[f+1], e[f], e[f+1]) else d[f] != e[f]
    ensures !(Crc(d[..BODY], 0) == Stored(d) && Crc(e[..BODY], 0) == Stored(e))
  {
    hide Crc, Stored;
    if f >= BODY {
      assert d[..BODY] == e[..BODY];
      if Stored(d) == Stored(e) { StoredInjective(d, e); }
    } else if straddles && f + 1 == BODY {
      assert d[..32] == e[..32];
      BoundaryBurst(d, e);
    } else {
      BodyBurst(d[..BODY], e[..BODY], f, straddles);
      if Stored(d) != Stored(e) { SameStored(d, e); }
    }
  }

  lemma SameStored(d: seq<bv8>, e: seq<bv8>)
    requires |d| == |e| == BYTES && d[33] == e[33] && d[34] == e[34]
    ensures Stored(d) == Stored(e)
  {
  }
}
