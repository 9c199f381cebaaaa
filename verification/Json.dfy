/** The fail-closed walker from JSON value trees to documents (crates/perch-ir/src/parse.rs). */
module Json {
  import opened Base
  import opened Text
  import opened Doc

  /** A parsed JSON value: members in source order, duplicates kept, numbers as raw text. */
  datatype Value =
    | Null
    | Bool(b: bool)
    | Number(text: string, isInt: bool)
    | String(s: string)
    | Array(items: seq<Value>)
    | Object(members: seq<Field>)

  datatype Field = Field(key: string, val: Value)

  datatype ParseError =
    | DuplicateField(name: string) | MissingField(name: string) | NullField(name: string) | UnknownField(name: string)
    | ExpectedObject | ExpectedArray | ExpectedString | ExpectedU32
    | UnknownVariant(tag: string)
    | UnsupportedVersion(version: nat)

  type Parsed<+T> = Result<T, ParseError>

  // ----- member access -----

  /** The value of field `name`: absent is fine, repeated is an error. */
  function Lookup(obj: seq<Field>, name: string): Parsed<Option<Value>> {
    if obj == [] then Ok(None)
    else
      var rest :- Lookup(obj[1..], name);
      if obj[0].key != name then Ok(rest)
      else if rest.Some? then Err(DuplicateField(name))
      else Ok(Some(obj[0].val))
  }

  method FindField(obj: seq<Field>, name: string) returns (r: Parsed<Option<Value>>)
    ensures r == Lookup(obj, name)
  {
    var found: Option<Value> := None;
    assert obj[0..] == obj;
    for i := 0 to |obj|
      invariant Lookup(obj, name) ==
                match Lookup(obj[i..], name)
                case Err(e) => Err(e)
                case Ok(None) => Ok(found)
                case Ok(Some(v)) => if found.Some? then Err(DuplicateField(name)) else Ok(Some(v))
    {
      assert obj[i..][0] == obj[i] && obj[i..][1..] == obj[i+1..];
      if obj[i].key == name {
        if found.Some? {
          LookupError(obj[i+1..], name);
          return Err(DuplicateField(name));
        }
        found := Some(obj[i].val);
      }
      LookupError(obj[i+1..], name);
    }
    return Ok(found);
  }

  /** The only error a lookup makes is the duplicate. */
  lemma {:induction false} LookupError(obj: seq<Field>, name: string)
    ensures Lookup(obj, name).Err? ==> Lookup(obj, name) == Err(DuplicateField(name))
  {
    if obj != [] { LookupError(obj[1..], name); }
  }

  function Required(obj: seq<Field>, name: string): Parsed<Value> {
    var found :- Lookup(obj, name);
    match found case Some(v) => Ok(v) case None => Err(MissingField(name))
  }

  /** Absent is `None`; an explicit null is refused, never read as absent. */
  function Optional(obj: seq<Field>, name: string): Parsed<Option<Value>> {
    var found :- Lookup(obj, name);
    if found == Some(Null) then Err(NullField(name)) else Ok(found)
  }

  function DenyUnknown(obj: seq<Field>, known: seq<string>): Parsed<()> {
    if obj == [] then Ok(())
    else if obj[0].key !in known then Err(UnknownField(obj[0].key))
    else DenyUnknown(obj[1..], known)
  }

  method DenyUnknownLoop(obj: seq<Field>, known: seq<string>) returns (r: Parsed<()>)
    ensures r == DenyUnknown(obj, known)
  {
    assert obj[0..] == obj;
    for i := 0 to |obj|
      invariant DenyUnknown(obj, known) == DenyUnknown(obj[i..], known)
    {
      assert obj[i..][0] == obj[i] && obj[i..][1..] == obj[i+1..];
      if obj[i].key !in known { return Err(UnknownField(obj[i].key)); }
    }
    return Ok(());
  }

  function AsObject(v: Value): Parsed<seq<Field>> { if v.Object? then Ok(v.members) else Err(ExpectedObject) }
  function AsArray(v: Value): Parsed<seq<Value>> { if v.Array? then Ok(v.items) else Err(ExpectedArray) }
  function AsStr(v: Value): Parsed<string> { if v.String? then Ok(v.s) else Err(ExpectedString) }

  function AsU32(v: Value): Parsed<u32> {
    if v.Number? && v.isInt && ParseU32(v.text).Some? then Ok(ParseU32(v.text).value) else Err(ExpectedU32)
  }

  function StrField(obj: seq<Field>, name: string): Parsed<string> {
    var v :- Required(obj, name);
    AsStr(v)
  }

  function U32Field(obj: seq<Field>, name: string): Parsed<u32> {
    var v :- Required(obj, name);
    AsU32(v)
  }

  function ArrayField(obj: seq<Field>, name: string): Parsed<seq<Value>> {
    var v :- Required(obj, name);
    AsArray(v)
  }

  /** Convert every element, stopping at the first error. */
  function Collect<T>(f: Value -> Parsed<T>, items: seq<Value>): Parsed<seq<T>> {
    if items == [] then Ok([])
    else
      var x :- f(items[0]);
      var rest :- Collect(f, items[1..]);
      Ok([x] + rest)
  }

  function StrArrayField(obj: seq<Field>, name: string): Parsed<seq<string>> {
    var items :- ArrayField(obj, name);
    Collect(AsStr, items)
  }

  function OptionalStr(obj: seq<Field>, name: string): Parsed<Option<string>> {
    var v :- Optional(obj, name);
    match v
    case None => Ok(None)
    case Some(w) => var s :- AsStr(w); Ok(Some(s))
  }

  // ----- the walk -----

  /** `from_json` on a parsed value: a numeric version other than 1 wins over every
      other complaint. */
  function FromJson(v: Value): Parsed<PolicyDoc> {
    match (if v.Object? then WrongVersion(v.members) else None)
    case Some(n) => Err(UnsupportedVersion(n))
    case None => DocFromValue(v)
  }

  function WrongVersion(obj: seq<Field>): Option<nat> {
    if obj == [] then None
    else
      match VersionOf(obj[0])
      case Some(n) => if n != 1 then Some(n) else WrongVersion(obj[1..])
      case None => WrongVersion(obj[1..])
  }

  function VersionOf(f: Field): Option<nat> {
    if f.key == "version" && f.val.Number? && f.val.isInt then ParseU64(f.val.text) else None
  }

  function ParseU64(s: string): Option<nat> {
    match ParseNat(if s != [] && s[0] == '+' then s[1..] else s)
    case Some(n) => if n <= 0xFFFF_FFFF_FFFF_FFFF then Some(n) else None
    case None => None
  }

  function DocFromValue(v: Value): Parsed<PolicyDoc> {
    var obj :- AsObject(v);
    var _ :- DenyUnknown(obj, ["version", "network", "signers", "rules", "recovery"]);
    var version :- U32Field(obj, "version");
    var network :- OptionalStr(obj, "network");
    var signerItems :- ArrayField(obj, "signers");
    var signers :- Collect(SignerFromValue, signerItems);
    var ruleItems :- ArrayField(obj, "rules");
    var rules :- Collect(RuleFromValue, ruleItems);
    var recovery :- OptionalRecovery(obj);
    Ok(PolicyDoc(version, network, signers, rules, recovery))
  }

  function OptionalRecovery(obj: seq<Field>): Parsed<Option<RecoveryConfig>> {
    var v :- Optional(obj, "recovery");
    match v
    case None => Ok(None)
    case Some(w) => var r :- RecoveryFromValue(w); Ok(Some(r))
  }

  function SignerFromValue(v: Value): Parsed<SignerDecl> {
    var obj :- AsObject(v);
    var address :- Lookup(obj, "address");
    var how :- if address.Some? then DelegatedFromFields(obj) else ExternalFromFields(obj);
    var id :- StrField(obj, "id");
    Ok(SignerDecl(id, how))
  }

  function DelegatedFromFields(obj: seq<Field>): Parsed<SignerMethod> {
    var _ :- DenyUnknown(obj, ["id", "address"]);
    var address :- StrField(obj, "address");
    Ok(Delegated(address))
  }

  function ExternalFromFields(obj: seq<Field>): Parsed<SignerMethod> {
    var _ :- DenyUnknown(obj, ["id", "verifier", "key"]);
    var verifier :- StrField(obj, "verifier");
    var key :- StrField(obj, "key");
    Ok(External(verifier, key))
  }

  function RuleFromValue(v: Value): Parsed<Rule> {
    var obj :- AsObject(v);
    var _ :- DenyUnknown(obj, ["name", "scope", "principals", "functions", "args", "not-after-ledger", "cap"]);
    var name :- StrField(obj, "name");
    var scopeValue :- Required(obj, "scope");
    var scope :- ScopeFromValue(scopeValue);
    var principalsValue :- Required(obj, "principals");
    var principals :- PrincipalsFromValue(principalsValue);
    var functions :- OptionalFunctions(obj);
    var args :- OptionalArgs(obj);
    var notAfter :- OptionalU32(obj, "not-after-ledger");
    var cap :- OptionalCap(obj);
    Ok(Rule(name, scope, principals, functions, args, notAfter, cap))
  }

  function OptionalFunctions(obj: seq<Field>): Parsed<Option<seq<string>>> {
    var v :- Optional(obj, "functions");
    match v
    case None => Ok(None)
    case Some(w) => var items :- AsArray(w); var fs :- Collect(AsStr, items); Ok(Some(fs))
  }

  function OptionalArgs(obj: seq<Field>): Parsed<Option<seq<ArgConstraint>>> {
    var v :- Optional(obj, "args");
    match v
    case None => Ok(None)
    case Some(w) => var items :- AsArray(w); var args :- Collect(ArgConstraintFromValue, items); Ok(Some(args))
  }

  function OptionalU32(obj: seq<Field>, name: string): Parsed<Option<u32>> {
    var v :- Optional(obj, name);
    match v
    case None => Ok(None)
    case Some(w) => var n :- AsU32(w); Ok(Some(n))
  }

  function OptionalCap(obj: seq<Field>): Parsed<Option<CapConstraint>> {
    var v :- Optional(obj, "cap");
    match v
    case None => Ok(None)
    case Some(w) => var c :- CapFromValue(w); Ok(Some(c))
  }

  function ScopeFromValue(v: Value): Parsed<Scope> {
    var obj :- AsObject(v);
    var tag :- StrField(obj, "type");
    if tag == "contract" then
      var _ :- DenyUnknown(obj, ["type", "address"]);
      var address :- StrField(obj, "address");
      Ok(ContractScope(address))
    else if tag == "self-admin" then
      var _ :- DenyUnknown(obj, ["type"]);
      Ok(SelfAdmin)
    else Err(UnknownVariant(tag))
  }

  function PrincipalsFromValue(v: Value): Parsed<Principals> {
    var obj :- AsObject(v);
    var tag :- StrField(obj, "type");
    if tag == "all" then
      var _ :- DenyUnknown(obj, ["type", "signers"]);
      var ids :- StrArrayField(obj, "signers");
      Ok(AllOfThem(ids))
    else if tag == "threshold" then
      var _ :- DenyUnknown(obj, ["type", "signers", "m"]);
      var ids :- StrArrayField(obj, "signers");
      var m :- U32Field(obj, "m");
      Ok(Threshold(ids, m))
    else if tag == "self-authenticating" then
      var _ :- DenyUnknown(obj, ["type", "policy", "install-param-hex", "ack"]);
      var policy :- StrField(obj, "policy");
      var param :- StrField(obj, "install-param-hex");
      var ack :- StrField(obj, "ack");
      Ok(SelfAuthenticating(policy, param, ack))
    else Err(UnknownVariant(tag))
  }

  function ArgConstraintFromValue(v: Value): Parsed<ArgConstraint> {
    var obj :- AsObject(v);
    var _ :- DenyUnknown(obj, ["index", "pred"]);
    var index :- U32Field(obj, "index");
    var predValue :- Required(obj, "pred");
    var pred :- PredFromValue(predValue);
    Ok(ArgConstraint(index, pred))
  }

  function PredFromValue(v: Value): Parsed<ArgPred> {
    var obj :- AsObject(v);
    var tag :- StrField(obj, "type");
    if tag == "is-self" then
      var _ :- DenyUnknown(obj, ["type"]);
      Ok(IsSelf)
    else if tag == "address-eq" then
      var _ :- DenyUnknown(obj, ["type", "address"]);
      var address :- StrField(obj, "address");
      Ok(AddressEq(address))
    else if tag == "string-in" then
      var _ :- DenyUnknown(obj, ["type", "values"]);
      var values :- StrArrayField(obj, "values");
      Ok(StringIn(values))
    else if tag == "string-prefix" then
      var _ :- DenyUnknown(obj, ["type", "prefix"]);
      var prefix :- StrField(obj, "prefix");
      Ok(StringPrefix(prefix))
    else if tag == "u32-eq" then
      var _ :- DenyUnknown(obj, ["type", "value"]);
      var value :- U32Field(obj, "value");
      Ok(U32Eq(value))
    else Err(UnknownVariant(tag))
  }

  function CapFromValue(v: Value): Parsed<CapConstraint> {
    var obj :- AsObject(v);
    var _ :- DenyUnknown(obj, ["token", "limit", "period-ledgers"]);
    var token :- OptionalStr(obj, "token");
    var limit :- StrField(obj, "limit");
    var period :- U32Field(obj, "period-ledgers");
    Ok(CapConstraint(token, limit, period))
  }

  function RecoveryFromValue(v: Value): Parsed<RecoveryConfig> {
    var obj :- AsObject(v);
    var _ :- DenyUnknown(obj, ["profile", "mode", "controller", "baseline", "replaceable",
                               "delay-ledgers", "expiry-ledgers", "max-cancels"]);
    var profileValue :- StrField(obj, "profile");
    var profile :- ProfileFromStr(profileValue);
    var modeValue :- Required(obj, "mode");
    var mode :- ModeFromValue(modeValue);
    var controller :- StrField(obj, "controller");
    var baseline :- OptionalBaseline(obj);
    var ids :- StrArrayField(obj, "replaceable");
    var delay :- U32Field(obj, "delay-ledgers");
    var expiry :- U32Field(obj, "expiry-ledgers");
    var maxCancels :- U32Field(obj, "max-cancels");
    Ok(RecoveryConfig(profile, mode, controller, baseline, ids, delay, expiry, maxCancels))
  }

  function ProfileFromStr(s: string): Parsed<RecoveryProfile> {
    if s == "loss" then Ok(Loss) else if s == "protected" then Ok(Protected) else Err(UnknownVariant(s))
  }

  function OptionalBaseline(obj: seq<Field>): Parsed<Option<string>> {
    var v :- Optional(obj, "baseline");
    match v
    case None => Ok(None)
    case Some(w) =>
      var inner :- AsObject(w);
      var _ :- DenyUnknown(inner, ["doc-hash"]);
      var h :- StrField(inner, "doc-hash");
      Ok(Some(h))
  }

  function ModeFromValue(v: Value): Parsed<RecoveryMode> {
    var obj :- AsObject(v);
    var tag :- StrField(obj, "type");
    if tag == "guardian-only" then
      var _ :- DenyUnknown(obj, ["type", "guardians", "quorum"]);
      var g :- GuardiansFromFields(obj);
      Ok(GuardianOnly(g))
    else if tag == "zk-only" then
      var _ :- DenyUnknown(obj, ["type", "adapter", "circuit-id", "pool", "enrollment-id", "commitment"]);
      var z :- ZkFromFields(obj);
      Ok(ZkOnly(z))
    else if tag == "combined" then
      var _ :- DenyUnknown(obj, ["type", "guardians", "quorum", "adapter", "circuit-id", "pool", "enrollment-id",
                                 "commitment"]);
      var g :- GuardiansFromFields(obj);
      var z :- ZkFromFields(obj);
      Ok(Combined(g, z))
    else Err(UnknownVariant(tag))
  }

  function GuardiansFromFields(obj: seq<Field>): Parsed<GuardianSet> {
    var guardians :- StrArrayField(obj, "guardians");
    var quorum :- U32Field(obj, "quorum");
    Ok(GuardianSet(guardians, quorum))
  }

  function ZkFromFields(obj: seq<Field>): Parsed<ZkFactor> {
    var adapter :- StrField(obj, "adapter");
    var circuitId :- StrField(obj, "circuit-id");
    var pool :- StrField(obj, "pool");
    var enrollmentId :- StrField(obj, "enrollment-id");
    var commitment :- StrField(obj, "commitment");
    Ok(ZkFactor(adapter, circuitId, pool, enrollmentId, commitment))
  }
}
