/** What strkey decoding computes: the 280-bit number that 56 base-32 digits write is the
    number that the 35 decoded bytes write in base 256. */
module Radix {
  import opened Strkey

  // One more digit of 5, 8, 20 or 40 bits at the low end.
  function Digit5(n: bv280, q: bv8): bv280 { (n << 5) | (q as bv280) }
  function Digit8(n: bv280, b: bv8): bv280 { (n << 8) | (b as bv280) }
  function Digit20(n: bv280, w: bv40): bv280 { (n << 20) | (w as bv280) }
  function Digit40(n: bv280, w: bv40): bv280 { (n << 40) | (w as bv280) }

  function Word4(a: bv8, b: bv8, c: bv8, d: bv8): bv40 {
    ((a as bv40) << 15) | ((b as bv40) << 10) | ((c as bv40) << 5) | (d as bv40)
  }

  function Join40(u: bv40, v: bv40): bv40 { (u << 20) | v }

  lemma Half5(n: bv280, a: bv8, b: bv8, c: bv8, d: bv8)
    requires a < 32 && b < 32 && c < 32 && d < 32
    ensures Digit5(Digit5(Digit5(Digit5(n, a), b), c), d) == Digit20(n, Word4(a, b, c, d))
  {
  }

  lemma Half5Small(a: bv8, b: bv8, c: bv8, d: bv8)
    requires a < 32 && b < 32 && c < 32 && d < 32
    ensures Word4(a, b, c, d) < 0x100000
  {
  }

  lemma Join20(n: bv280, u: bv40, v: bv40)
    requires u < 0x100000
    ensures Digit20(Digit20(n, u), v) == Digit40(n, Join40(u, v))
  {
  }

  lemma JoinWords(a: bv8, b: bv8, c: bv8, d: bv8, e: bv8, f: bv8, g: bv8, h: bv8)
    ensures Join40(Word4(a, b, c, d), Word4(e, f, g, h)) == Word8(a, b, c, d, e, f, g, h)
  {
  }

  lemma Group8(n: bv280, a: bv8, b: bv8, c: bv8, d: bv8, e: bv8)
    ensures Digit8(Digit8(Digit8(Digit8(Digit8(n, a), b), c), d), e) == Digit40(n, Word5(a, b, c, d, e))
  {
  }

  /** The number the first `k` base-32 digits write. */
  function Base32Number(q: seq<bv8>, k: nat): bv280
    requires k <= |q|
  {
    if k == 0 then 0 else Digit5(Base32Number(q, k - 1), q[k - 1])
  }

  /** The number the first `k` bytes write. */
  function Base256Number(d: seq<bv8>, k: nat): bv280
    requires k <= |d|
  {
    if k == 0 then 0 else Digit8(Base256Number(d, k - 1), d[k - 1])
  }

  lemma FourDigits(q: seq<bv8>, k: nat)
    requires k + 4 <= |q|
    ensures Base32Number(q, k + 4) == Digit5(Digit5(Digit5(Digit5(Base32Number(q, k), q[k]), q[k+1]), q[k+2]), q[k+3])
  {
    hide Digit5;
    assert Base32Number(q, k + 1) == Digit5(Base32Number(q, k), q[k]);
    assert Base32Number(q, k + 2) == Digit5(Base32Number(q, k + 1), q[k+1]);
    assert Base32Number(q, k + 3) == Digit5(Base32Number(q, k + 2), q[k+2]);
  }

  lemma FiveBytes(d: seq<bv8>, k: nat)
    requires k + 5 <= |d|
    ensures Base256Number(d, k + 5) ==
            Digit8(Digit8(Digit8(Digit8(Digit8(Base256Number(d, k), d[k]), d[k+1]), d[k+2]), d[k+3]), d[k+4])
  {
    hide Digit8;
    assert Base256Number(d, k + 1) == Digit8(Base256Number(d, k), d[k]);
    assert Base256Number(d, k + 2) == Digit8(Base256Number(d, k + 1), d[k+1]);
    assert Base256Number(d, k + 3) == Digit8(Base256Number(d, k + 2), d[k+2]);
    assert Base256Number(d, k + 4) == Digit8(Base256Number(d, k + 3), d[k+3]);
  }

  lemma GroupBytes(q: seq<bv8>, g: nat, r: nat)
    requires |q| == CHARS && g < 7 && r < 5
    ensures Bytes(q)[5 * g + r] == GroupByte(q, g, r)
  {
    hide GroupByte;
    assert (5 * g + r) / 5 == g && (5 * g + r) % 5 == r;
  }

  lemma GroupOfDigits(q: seq<bv8>, g: nat)
    requires AllQuintets(q) && g < 7
    ensures Base32Number(q, 8 * g + 8) ==
            Digit40(Base32Number(q, 8 * g),
                    Word8(q[8*g], q[8*g+1], q[8*g+2], q[8*g+3], q[8*g+4], q[8*g+5], q[8*g+6], q[8*g+7]))
  {
    hide Base32Number, Digit5, Digit20, Digit40, Word8, Word4, Join40;
    var k := 8 * g;
    var n := Base32Number(q, k);
    FourDigits(q, k);
    FourDigits(q, k + 4);
    Half5(n, q[k], q[k+1], q[k+2], q[k+3]);
    Half5(Base32Number(q, k + 4), q[k+4], q[k+5], q[k+6], q[k+7]);
    Half5Small(q[k], q[k+1], q[k+2], q[k+3]);
    Join20(n, Word4(q[k], q[k+1], q[k+2], q[k+3]), Word4(q[k+4], q[k+5], q[k+6], q[k+7]));
    JoinWords(q[k], q[k+1], q[k+2], q[k+3], q[k+4], q[k+5], q[k+6], q[k+7]);
  }

  lemma GroupOfBytes(q: seq<bv8>, g: nat)
    requires AllQuintets(q) && g < 7
    ensures Base256Number(Bytes(q), 5 * g + 5) ==
            Digit40(Base256Number(Bytes(q), 5 * g),
                    Word8(q[8*g], q[8*g+1], q[8*g+2], q[8*g+3], q[8*g+4], q[8*g+5], q[8*g+6], q[8*g+7]))
  {
    hide Base256Number, Digit8, Digit40, Word8, Word5, ByteOf, Bytes;
    var k, j, d := 8 * g, 5 * g, Bytes(q);
    FiveBytes(d, j);
    Group8(Base256Number(d, j), d[j], d[j+1], d[j+2], d[j+3], d[j+4]);
    GroupBytes(q, g, 0); GroupBytes(q, g, 1); GroupBytes(q, g, 2); GroupBytes(q, g, 3); GroupBytes(q, g, 4);
    SameWord(q[k], q[k+1], q[k+2], q[k+3], q[k+4], q[k+5], q[k+6], q[k+7]);
  }

  lemma NoDigits(q: seq<bv8>)
    ensures Base32Number(q, 0) == Base256Number(q, 0) == 0
  {
  }

  lemma {:induction false} SameNumber(q: seq<bv8>, g: nat)
    requires |q| == CHARS && AllQuintets(q) && g <= 7
    ensures Base32Number(q, 8 * g) == Base256Number(Bytes(q), 5 * g)
  {
    hide Base32Number, Base256Number, Digit40, Word8, Bytes, AllQuintets;
    if g == 0 {
      NoDigits(q);
      NoDigits(Bytes(q));
    } else {
      SameNumber(q, g - 1);
      GroupOfDigits(q, g - 1);
      GroupOfBytes(q, g - 1);
    }
  }

  /** The decoder changes radix and nothing else. */
  lemma DecodingIsRadixChange(s: string)
    requires IsBase32(s)
    ensures Base32Number(Quintets(s), CHARS) == Base256Number(Bytes(Quintets(s)), BYTES)
  {
    hide Base32Number, Base256Number, Bytes, Quintet;
    QuintetsSmall(s);
    SameNumber(Quintets(s), 7);
  }
}
