/** What the validator's limits are for (crates/perch-ir/src/validate.rs): each against what
    the addresses, the symbols and the evaluator it validates for can hold. */
module Limits {
  import opened Base
  import opened Text
  import opened Doc
  import opened Validate
  import Compile
  import Program
  import LeafRange
  import S = Strkey

  // ----- addresses -----

  /** The kind a strkey's version byte names: its upper five bits. */
  function Version(s: string): bv8
    requires S.IsBase32(s)
  {
    S.Bytes(S.Quintets(s))[0] >> 3
  }

  lemma FirstByteHigh(a: bv8, b: bv8)
    requires a < 32 && b < 32
    ensures S.Byte0(a, b) >> 3 == a
  {
    assert ((a << 3) | (b >> 2)) >> 3 == a;
  }

  lemma VersionIsFirst(s: string)
    requires S.IsBase32(s)
    ensures Version(s) == S.Quintets(s)[0]
  {
    hide S.Byte0;
    var q := S.Quintets(s);
    S.QuintetsSmall(s);
    FirstByteHigh(q[0], q[1]);
    assert S.GroupByte(q, 0, 0) == S.Byte0(q[0], q[1]);
    assert S.Bytes(q)[0] == S.GroupByte(q, 0, 0);
  }

  lemma LeadLetters(c: char)
    requires S.Quintet(c).Some?
    ensures S.Quintet(c).value == 2 <==> c == 'C'
    ensures S.Quintet(c).value == 6 <==> c == 'G'
  {
  }

  /** A contract address is an accepted strkey of kind 2, and an address one of kind 2 or 6
      (SEP-23: contracts and accounts). */
  lemma AddressKinds(s: string)
    ensures IsContractAddress(s) <==> S.ChecksumOk(s) && Version(s) == 2
    ensures IsAddress(s) <==> S.ChecksumOk(s) && (Version(s) == 2 || Version(s) == 6)
  {
    hide S.Crc, S.Stored, S.Quintet, S.Bytes, Version;
    if S.IsBase32(s) {
      VersionIsFirst(s);
      assert S.Quintet(s[0]).Some? && S.Quintets(s)[0] == S.Quintet(s[0]).value;
      LeadLetters(s[0]);
    }
  }

  // ----- symbols -----

  const DIGITS := "0123456789"
  const CAPITALS := "ABCDEFGHIJKLMNOPQRSTUVWXYZ"
  const SMALL := "abcdefghijklmnopqrstuvwxyz"

  lemma DigitRange(c: char)
    ensures '0' <= c <= '9' <==> c in DIGITS
  {
    if '0' <= c <= '9' { assert DIGITS[c as int - '0' as int] == c; }
  }

  lemma CapitalRange(c: char)
    ensures 'A' <= c <= 'Z' <==> c in CAPITALS
  {
    if 'A' <= c <= 'Z' { assert CAPITALS[c as int - 'A' as int] == c; }
  }

  lemma SmallRange(c: char)
    ensures 'a' <= c <= 'z' <==> c in SMALL
  {
    if 'a' <= c <= 'z' { assert SMALL[c as int - 'a' as int] == c; }
  }

  /** A function name fits a Soroban symbol: 1 to 32 of 63 characters. */
  lemma SymbolLimit(s: string)
    ensures IsValidSymbol(s) <==>
            0 < |s| < 33 && forall i :: 0 <= i < |s| ==> s[i] in "_" + DIGITS + CAPITALS + SMALL
  {
    forall c: char ensures IsSymbolChar(c) <==> c in "_" + DIGITS + CAPITALS + SMALL {
      DigitRange(c);
      CapitalRange(c);
      SmallRange(c);
    }
  }

  // ----- predicates -----

  /** Validation refuses exactly the prefixes whose lowered leaf no invocation can satisfy. */
  lemma PrefixLimit(index: u32, prefix: string)
    requires index < U32_MAX
    ensures ValidPred(StringPrefix(prefix)) <==>
            exists inp :: Program.LeafVerdict(inp, Compile.LowerPred(index, StringPrefix(prefix))) == Program.True
  {
    LeafRange.LeafAttains(Compile.LowerPred(index, StringPrefix(prefix)), Program.True);
  }

  // ----- recovery contracts -----

  /** No rule of a valid document reaches the proof factor's contracts. */
  lemma FactorOutOfReach(doc: PolicyDoc, i: nat)
    requires ValidDoc(doc) && i < |doc.rules| && doc.recovery.Some? && !doc.recovery.value.mode.GuardianOnly?
    ensures var z := doc.recovery.value.mode.zkFactor;
            doc.rules[i].scope !in {ContractScope(z.adapter), ContractScope(z.pool)}
  {
    hide ValidSigners, ValidRules, ValidRecovery;
    assert AvoidsZk(doc.rules[i], doc.recovery.value.mode.zkFactor);
  }

  /** A credential a valid document declares has a key of 1 to 256 bytes, or is an address. */
  lemma KeyLimit(how: SignerMethod)
    requires how.External?
    ensures ValidHow(how) <==>
            && IsContractAddress(how.verifier)
            && exists bytes :: HexDecode(how.key) == Some(bytes) && 1 <= |bytes| <= 256
  {
  }
}
