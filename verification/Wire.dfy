/** The recovery encodings (crates/perch-recovery-interface/src/statement.rs and
    credential.rs), each with an inverse decoder. */
module Wire {
  import opened Base
  import opened Lex
  import opened Field

  type u64 = n: int | 0 <= n < 0x1_0000_0000_0000_0000
  type Blob = b: seq<byte> | |b| <= U32_MAX

  /** An address as the recovery stack sees it: two kinds have a 32-byte payload, every
      other kind is refused. */
  datatype ChainAddress = Account(key: Bytes32) | Contract(id: Bytes32) | Unsupported(kind: nat)

  datatype StatementError =
    | AccountNotContract | ControllerNotContract | UnsupportedAddress | ReplacementsNotCanonical

  // ----- fixed-width fields -----

  /** Big-endian, most significant byte first. */
  function BigEndian(n: nat, width: nat): (bs: seq<byte>)
    ensures |bs| == width
  {
    if width == 0 then [] else BigEndian(n / 256, width - 1) + [n % 256]
  }

  lemma {:induction false} BigEndianValue(n: nat, width: nat)
    requires n < Pow(256, width)
    ensures Value(256, BigEndian(n, width)) == n
  {
    if width > 0 {
      BigEndianValue(n / 256, width - 1);
      var init := BigEndian(n / 256, width - 1);
      assert (init + [n % 256])[..width - 1] == init;
    }
  }

  lemma WordValues(n: u32, m: u64)
    ensures Value(256, BigEndian(n, 4)) == n && Value(256, BigEndian(m, 8)) == m
  {
    assert Pow(256, 4) == 0x1_0000_0000;
    assert Pow(256, 8) == 0x1_0000_0000_0000_0000 by {
      assert Pow(256, 6) == Pow(256, 4) * 256 * 256;
    }
    BigEndianValue(n, 4);
    BigEndianValue(m, 8);
  }

  lemma WordRoundTrips(n: u32, m: u64)
    ensures Word4(BigEndian(n, 4)) == n && Word8(BigEndian(m, 8)) == m
  {
    hide BigEndian;
    WordValues(n, m);
  }

  function Flat(fields: seq<seq<byte>>): seq<byte> {
    if fields == [] then [] else Flat(fields[..|fields|-1]) + fields[|fields|-1]
  }

  function Widths(fields: seq<seq<byte>>): (ws: seq<nat>)
    ensures |ws| == |fields|
  {
    seq(|fields|, i requires 0 <= i < |fields| => |fields[i]|)
  }

  datatype Cutting = Cutting(fields: seq<seq<byte>>, rest: seq<byte>)

  /** Cut fields of the given widths off the front. */
  function Cut(widths: seq<nat>, bytes: seq<byte>): (r: Option<Cutting>)
    ensures r.Some? ==> |r.value.fields| == |widths|
    ensures r.Some? ==> forall i :: 0 <= i < |widths| ==> |r.value.fields[i]| == widths[i]
  {
    if widths == [] then Some(Cutting([], bytes))
    else
      var init :- Cut(widths[..|widths|-1], bytes);
      var w := widths[|widths|-1];
      if |init.rest| < w then None else Some(Cutting(init.fields + [init.rest[..w]], init.rest[w..]))
  }

  lemma {:induction false} CutFlat(fields: seq<seq<byte>>, rest: seq<byte>)
    ensures Cut(Widths(fields), Flat(fields) + rest) == Some(Cutting(fields, rest))
  {
    if fields != [] {
      var init, last := fields[..|fields|-1], fields[|fields|-1];
      CutFlat(init, last + rest);
      assert Flat(fields) + rest == Flat(init) + (last + rest);
      assert Widths(fields)[..|fields|-1] == Widths(init);
      assert (last + rest)[..|last|] == last && (last + rest)[|last|..] == rest;
      assert init + [last] == fields;
    } else {
      assert Flat(fields) + rest == rest;
    }
  }

  lemma FlatAppend(fields: seq<seq<byte>>, field: seq<byte>)
    ensures Flat(fields + [field]) == Flat(fields) + field
  {
    assert (fields + [field])[..|fields|] == fields;
  }

  function Ascii(s: string): (bs: seq<byte>)
    requires forall i :: 0 <= i < |s| ==> s[i] < 128 as char
    ensures |bs| == |s|
  {
    seq(|s|, i requires 0 <= i < |s| => s[i] as int)
  }

  // ----- statements -----

  const STATEMENT_DOMAIN := "perch/recovery/statement"
  function StatementTag(): (tag: seq<byte>) ensures |tag| == 24 { Ascii(STATEMENT_DOMAIN) }
  const STATEMENT_VERSION: byte := 2

  datatype AttemptSubject = AttemptSubject(
    attemptId: u64, sourceDocHash: Bytes32, targetDocHash: Bytes32, replacementsHash: Bytes32)

  datatype ConfigChange = Remove | Set(hash: Bytes32)

  datatype Subject =
    | LostKey(attempt: AttemptSubject)
    | Compromise(attempt: AttemptSubject)
    | Cancel(attemptId: u64, attemptStatement: Bytes32)
    | Reconfigure(change: ConfigChange)
    | Upgrade(requestId: u64, wasmHash: Bytes32)

  datatype RecoveryStatement = RecoveryStatement(
    networkId: Bytes32,
    account: ChainAddress,
    controller: ChainAddress,
    epoch: u64,
    configHash: Bytes32,
    delayLedgers: u32,
    expiryLedgers: u32,
    validUntilLedger: u32,
    subject: Subject)

  function Action(s: Subject): byte {
    match s
    case LostKey(_) => 1
    case Compromise(_) => 2
    case Cancel(_, _) => 3
    case Reconfigure(_) => 4
    case Upgrade(_, _) => 5
  }

  function Zeros(): Bytes32 { seq(32, _ => 0) }

  function SubjectFields(s: Subject): seq<seq<byte>> {
    match s
    case LostKey(a) => [BigEndian(a.attemptId, 8), a.sourceDocHash, a.targetDocHash, a.replacementsHash]
    case Compromise(a) => [BigEndian(a.attemptId, 8), a.sourceDocHash, a.targetDocHash, a.replacementsHash]
    case Cancel(id, stmt) => [BigEndian(id, 8), stmt]
    case Reconfigure(Remove) => [[0], Zeros()]
    case Reconfigure(Set(h)) => [[1], h]
    case Upgrade(id, h) => [BigEndian(id, 8), h]
  }

  function PrefixFields(s: RecoveryStatement): seq<seq<byte>>
    requires s.account.Contract? && s.controller.Contract?
  {
    [StatementTag(), [STATEMENT_VERSION], [Action(s.subject)], s.networkId, s.account.id, s.controller.id,
     BigEndian(s.epoch, 8), s.configHash,
     BigEndian(s.delayLedgers, 4), BigEndian(s.expiryLedgers, 4), BigEndian(s.validUntilLedger, 4)]
  }

  function EncodeStatement(s: RecoveryStatement): Result<seq<byte>, StatementError> {
    if !s.account.Contract? then Err(AccountNotContract)
    else if !s.controller.Contract? then Err(ControllerNotContract)
    else Ok(Flat(PrefixFields(s)) + Flat(SubjectFields(s.subject)))
  }

  const PREFIX_WIDTHS: seq<nat> := [24, 1, 1, 32, 32, 32, 8, 32, 4, 4, 4]

  function SubjectWidths(action: byte): seq<nat> {
    match action
    case 1 => [8, 32, 32, 32]
    case 2 => [8, 32, 32, 32]
    case 4 => [1, 32]
    case _ => [8, 32]
  }

  function DecodeSubject(action: byte, bytes: seq<byte>): Option<Subject> {
    var cut :- Cut(SubjectWidths(action), bytes);
    var f := cut.fields;
    if cut.rest != [] then None
    else match action
    case 1 => Some(LostKey(AttemptSubject(Word8(f[0]), f[1], f[2], f[3])))
    case 2 => Some(Compromise(AttemptSubject(Word8(f[0]), f[1], f[2], f[3])))
    case 3 => Some(Cancel(Word8(f[0]), f[1]))
    case 4 => if f[0] == [0] && f[1] == Zeros() then Some(Reconfigure(Remove))
              else if f[0] == [1] then Some(Reconfigure(Set(f[1]))) else None
    case 5 => Some(Upgrade(Word8(f[0]), f[1]))
    case _ => None
  }

  function Word8(bs: seq<byte>): u64
    requires |bs| == 8
  {
    ValueRange(256, bs);
    assert Pow(256, 4) == 0x1_0000_0000;
    assert Pow(256, 6) == Pow(256, 4) * 256 * 256;
    Value(256, bs)
  }

  function Word4(bs: seq<byte>): u32
    requires |bs| == 4
  {
    ValueRange(256, bs);
    assert Pow(256, 4) == 0x1_0000_0000;
    Value(256, bs)
  }

  function DecodeStatement(bytes: seq<byte>): Option<RecoveryStatement> {
    var cut :- Cut(PREFIX_WIDTHS, bytes);
    var f := cut.fields;
    var subject :- DecodeSubject(f[2][0], cut.rest);
    if f[0] != Ascii("perch/recovery/statement") || f[1] != [2] then None
    else Some(RecoveryStatement(f[3], Contract(f[4]), Contract(f[5]), Word8(f[6]), f[7],
                                Word4(f[8]), Word4(f[9]), Word4(f[10]), subject))
  }

  /** Field by field into a growing buffer. */
  method WriteStatement(s: RecoveryStatement) returns (r: Result<seq<byte>, StatementError>)
    ensures r == EncodeStatement(s)
  {
    if !s.account.Contract? { return Err(AccountNotContract); }
    if !s.controller.Contract? { return Err(ControllerNotContract); }
    var out: seq<byte> := StatementTag();
    out := out + [STATEMENT_VERSION];
    out := out + [Action(s.subject)];
    out := out + s.networkId;
    out := out + s.account.id;
    out := out + s.controller.id;
    out := out + BigEndian(s.epoch, 8);
    out := out + s.configHash;
    out := out + BigEndian(s.delayLedgers, 4);
    out := out + BigEndian(s.expiryLedgers, 4);
    out := out + BigEndian(s.validUntilLedger, 4);
    PrefixFlat(s);
    var subject := WriteSubject(s.subject);
    return Ok(out + subject);
  }

  method WriteSubject(s: Subject) returns (out: seq<byte>)
    ensures out == Flat(SubjectFields(s))
  {
    out := [];
    match s {
      case LostKey(a) => out := WriteAttempt(a);
      case Compromise(a) => out := WriteAttempt(a);
      case Cancel(id, stmt) =>
        out := out + BigEndian(id, 8);
        out := out + stmt;
        FlatTwo(BigEndian(id, 8), stmt);
      case Reconfigure(Remove) =>
        out := out + [0];
        out := out + Zeros();
        FlatTwo([0], Zeros());
      case Reconfigure(Set(h)) =>
        out := out + [1];
        out := out + h;
        FlatTwo([1], h);
      case Upgrade(id, h) =>
        out := out + BigEndian(id, 8);
        out := out + h;
        FlatTwo(BigEndian(id, 8), h);
    }
  }

  method WriteAttempt(a: AttemptSubject) returns (out: seq<byte>)
    ensures out == Flat([BigEndian(a.attemptId, 8), a.sourceDocHash, a.targetDocHash, a.replacementsHash])
  {
    out := BigEndian(a.attemptId, 8);
    out := out + a.sourceDocHash;
    out := out + a.targetDocHash;
    out := out + a.replacementsHash;
    FlatFour(BigEndian(a.attemptId, 8), a.sourceDocHash, a.targetDocHash, a.replacementsHash);
  }

  lemma FlatTwo(a: seq<byte>, b: seq<byte>)
    ensures Flat([a, b]) == a + b
  {
    FlatAppend([], a);
    FlatAppend([a], b);
    assert [] + [a] == [a] && [a] + [b] == [a, b];
    assert Flat([]) + a == a;
  }

  lemma FlatFour(a: seq<byte>, b: seq<byte>, c: seq<byte>, d: seq<byte>)
    ensures Flat([a, b, c, d]) == a + b + c + d
  {
    hide Flat;
    FlatTwo(a, b);
    FlatAppend([a, b], c);
    FlatAppend([a, b, c], d);
    assert [a, b] + [c] == [a, b, c] && [a, b, c] + [d] == [a, b, c, d];
  }

  lemma PrefixFlat(s: RecoveryStatement)
    requires s.account.Contract? && s.controller.Contract?
    ensures Flat(PrefixFields(s)) ==
            StatementTag() + [STATEMENT_VERSION] + [Action(s.subject)] + s.networkId + s.account.id + s.controller.id
            + BigEndian(s.epoch, 8) + s.configHash
            + BigEndian(s.delayLedgers, 4) + BigEndian(s.expiryLedgers, 4) + BigEndian(s.validUntilLedger, 4)
  {
    hide Flat, BigEndian, StatementTag;
    var f := PrefixFields(s);
    FlatFour(f[0], f[1], f[2], f[3]);
    assert f[..4] == [f[0], f[1], f[2], f[3]];
    forall k | 4 <= k < 11 ensures Flat(f[..k+1]) == Flat(f[..k]) + f[k] {
      FlatAppend(f[..k], f[k]);
      assert f[..k] + [f[k]] == f[..k+1];
    }
    assert f[..11] == f;
    assert Flat(f[..5]) == Flat(f[..4]) + f[4];
    assert Flat(f[..6]) == Flat(f[..5]) + f[5];
    assert Flat(f[..7]) == Flat(f[..6]) + f[6];
    assert Flat(f[..8]) == Flat(f[..7]) + f[7];
    assert Flat(f[..9]) == Flat(f[..8]) + f[8];
    assert Flat(f[..10]) == Flat(f[..9]) + f[9];
    assert Flat(f[..11]) == Flat(f[..10]) + f[10];
  }

  lemma SubjectCut(s: Subject)
    ensures Cut(SubjectWidths(Action(s)), Flat(SubjectFields(s))) == Some(Cutting(SubjectFields(s), []))
  {
    hide Flat, BigEndian, Cut;
    var f := SubjectFields(s);
    CutFlat(f, []);
    assert Flat(f) + [] == Flat(f);
    assert Widths(f) == SubjectWidths(Action(s));
  }

  lemma SubjectRoundTrip(s: Subject)
    ensures DecodeSubject(Action(s), Flat(SubjectFields(s))) == Some(s)
  {
    hide Flat, BigEndian, Cut, Word8;
    SubjectCut(s);
    match s
    case LostKey(a) => WordRoundTrips(0, a.attemptId);
    case Compromise(a) => WordRoundTrips(0, a.attemptId);
    case Cancel(id, _) => WordRoundTrips(0, id);
    case Reconfigure(_) =>
    case Upgrade(id, _) => WordRoundTrips(0, id);
  }

  lemma TagSpelled()
    ensures StatementTag() == Ascii("perch/recovery/statement") && STATEMENT_VERSION == 2
  {
  }

  /** Decoding an encoded statement gives it back, for all five actions. */
  lemma StatementRoundTrip(s: RecoveryStatement)
    requires EncodeStatement(s).Ok?
    ensures DecodeStatement(EncodeStatement(s).value) == Some(s)
  {
    hide Flat, BigEndian, StatementTag, Ascii, SubjectFields, DecodeSubject, Cut, Word4, Word8;
    var f := PrefixFields(s);
    TagSpelled();
    CutFlat(f, Flat(SubjectFields(s.subject)));
    assert Widths(f) == PREFIX_WIDTHS;
    SubjectRoundTrip(s.subject);
    WordRoundTrips(s.delayLedgers, s.epoch);
    WordRoundTrips(s.expiryLedgers, s.epoch);
    WordRoundTrips(s.validUntilLedger, s.epoch);
  }

  /** Two statements with the same encoding are the same statement: evidence for one
      action, account, epoch or proposal is evidence for no other. */
  lemma StatementInjective(s: RecoveryStatement, t: RecoveryStatement)
    requires EncodeStatement(s).Ok? && EncodeStatement(s) == EncodeStatement(t)
    ensures s == t
  {
    StatementRoundTrip(s);
    StatementRoundTrip(t);
  }
}
