/** The policy document (crates/perch-ir/src/doc.rs). */
module Doc {
  import opened Base

  datatype PolicyDoc = PolicyDoc(
    version: u32,
    network: Option<string>,
    signers: seq<SignerDecl>,
    rules: seq<Rule>,
    recovery: Option<RecoveryConfig>)

  datatype SignerDecl = SignerDecl(id: string, how: SignerMethod)

  datatype SignerMethod =
    | External(verifier: string, key: string)
    | Delegated(address: string)

  datatype Rule = Rule(
    name: string,
    scope: Scope,
    principals: Principals,
    functions: Option<seq<string>>,
    args: Option<seq<ArgConstraint>>,
    notAfterLedger: Option<u32>,
    cap: Option<CapConstraint>)

  datatype CapConstraint = CapConstraint(token: Option<string>, limit: string, periodLedgers: u32)

  datatype Scope = ContractScope(address: string) | SelfAdmin

  datatype Principals =
    | AllOfThem(signers: seq<string>)
    | Threshold(signers: seq<string>, m: u32)
    | SelfAuthenticating(policy: string, installParamHex: string, ack: string)

  datatype ArgConstraint = ArgConstraint(index: u32, pred: ArgPred)

  datatype ArgPred =
    | IsSelf
    | AddressEq(address: string)
    | StringIn(values: seq<string>)
    | StringPrefix(prefix: string)
    | U32Eq(value: u32)

  datatype RecoveryProfile = Loss | Protected

  /** What a recovery repairs. */
  datatype RecoveryAction = LostKey | Compromise

  datatype GuardianSet = GuardianSet(guardians: seq<string>, quorum: u32)

  datatype ZkFactor = ZkFactor(
    adapter: string, circuitId: string, pool: string, enrollmentId: string, commitment: string)

  datatype RecoveryMode =
    | GuardianOnly(guardianSet: GuardianSet)
    | ZkOnly(zkFactor: ZkFactor)
    | Combined(guardianSet: GuardianSet, zkFactor: ZkFactor)

  datatype RecoveryConfig = RecoveryConfig(
    profile: RecoveryProfile,
    mode: RecoveryMode,
    controller: string,
    baseline: Option<string>,
    replaceableIds: seq<string>,
    delayLedgers: u32,
    expiryLedgers: u32,
    maxCancels: u32)

  /** Position of the first signer declared under `id`. */
  function FindSigner(signers: seq<SignerDecl>, id: string): Option<nat> {
    if signers == [] then None
    else if signers[0].id == id then Some(0)
    else match FindSigner(signers[1..], id) case Some(k) => Some(k + 1) case None => None
  }

  lemma {:induction false} FindSignerIsFirst(signers: seq<SignerDecl>, id: string)
    ensures FindSigner(signers, id).None? <==> forall k :: 0 <= k < |signers| ==> signers[k].id != id
    ensures match FindSigner(signers, id)
            case Some(k) => k < |signers| && signers[k].id == id && forall j :: 0 <= j < k ==> signers[j].id != id
            case None => true
  {
    if signers != [] && signers[0].id != id {
      FindSignerIsFirst(signers[1..], id);
      assert forall k :: 1 <= k < |signers| ==> signers[k] == signers[1..][k-1];
      if FindSigner(signers[1..], id).None? {
        assert forall k :: 0 <= k < |signers| ==> k == 0 || signers[k] == signers[1..][k-1];
      }
    }
  }
}
