/** The controller's entry points (crates/perch-recovery/src/contract.rs) over one account's
    entries in its storage, each tied to its transition. */
module ControllerContract {
  import opened Base
  import opened Field
  import opened Doc
  import opened Revocation
  import opened Account
  import opened Controller

  /** Either the transition was made, or the refusal reported and nothing changed. */
  ghost predicate Made(r: Result<(), Refusal>, want: Result<Store, Refusal>, before: Store, now: Store) {
    match want
    case Ok(n) => r == Ok(()) && now == n
    case Err(e) => r == Err(e) && now == before
  }

  class Contract {
    const account: string
    const here: string
    var config: Option<Config>
    var epoch: nat
    var nextAttempt: nat
    var invalidateBelow: nat
    var authorized: Option<nat>
    var cancels: u32
    var attempts: map<nat, Attempt>
    var marker: Option<Marker>
    var spent: set<Bytes32>

    /** The stored entries. */
    function Stored(): Store reads this {
      Store(config, epoch, nextAttempt, invalidateBelow, authorized, cancels, attempts, marker, spent)
    }

    constructor (account: string, here: string)
      ensures Stored() == EMPTY && this.account == account && this.here == here
    {
      this.account, this.here := account, here;
      config, epoch, nextAttempt, invalidateBelow, authorized := None, 0, 0, 0, None;
      cancels, attempts, marker, spent := 0, map[], None, {};
    }

    /** Open an attempt for a derived target. */
    method BeginAttempt(fps: Fingerprints, now: u32, action: RecoveryAction, req: Request)
      returns (r: Result<(), Refusal>)
      modifies this
      ensures Made(r, Begin(old(Stored()), fps, now, action, req), old(Stored()), Stored())
    {
      hide ReplacedLeave, NoneIn, AuthorizedLive, SourceOf;
      if config.None? { return Err(NotEnrolled); }
      if AuthorizedLive(Stored(), now).Some? { return Err(AttemptAuthorized); }
      if !req.canonical || config.value.zk != (req.enrollments == 1) { return Err(InvalidReplacements); }
      var source := SourceOf(config.value, action, req);
      if source.Err? { return Err(source.error); }
      if req.derived.None? { return Err(InvalidReplacements); }
      var d := req.derived.value;
      if req.enrollments > 0 && req.enrolledBefore { return Err(EnrollmentIdReused); }
      var clear := CheckNoneIn(fps(d.target), req.revoked);
      if !clear { return Err(CredentialRevoked); }
      if d.replaced.None? { return Err(InvalidReplacements); }
      var leave := CredentialsLeave(d.replaced.value, fps(d.target));
      if !leave { return Err(ReplacedCredentialRetained); }
      var deadline := now + config.value.expiry;
      var cancelUntil := deadline + config.value.delay + config.value.expiry;
      if cancelUntil > U32_MAX { return Err(LedgerOverflow); }
      var a := Attempt(nextAttempt, action, epoch, deadline, cancelUntil, 0, 0, 0, source.value, d.target, d.config,
                       d.replaced.value, Collecting, [], None, [], false);
      nextAttempt := nextAttempt + 1;
      attempts := attempts[a.id := a];
      return Ok(());
    }

    /** One guardian's approval of an attempt's statement. */
    method CountGuardian(now: u32, id: nat, domain: Domain, g: string, signed: bool, applied: Option<DocId>)
      returns (r: Result<(), Refusal>)
      modifies this
      ensures Made(r, SubmitGuardian(old(Stored()), now, id, domain, g, signed, applied), old(Stored()), Stored())
    {
      hide AfterEvidence, Live;
      if config.None? { return Err(NotEnrolled); }
      if config.value.guardians.None? { return Err(ModeHasNoGuardians); }
      if g !in config.value.guardians.value.guardians { return Err(NotAGuardian); }
      var loaded := LoadLive(Stored(), now, id);
      if loaded.Err? { return Err(loaded.error); }
      var a := loaded.value;
      match domain {
        case Initiation =>
          if a.phase != Collecting { return Err(AttemptNotCollecting); }
          if g in a.guardians { return Err(AlreadyCounted); }
        case Cancellation =>
          if g in a.cancelGuardians { return Err(AlreadyCounted); }
      }
      if now > ValidUntil(a, domain) { return Err(EvidenceExpired); }
      if !signed { return Err(NotSigned); }
      r := CountEvidence(now, WithGuardian(a, domain, g), domain, applied);
    }

    /** A proof for an attempt's statement. */
    method CountProof(now: u32, id: nat, domain: Domain, nullifier: Bytes32, verified: bool, applied: Option<DocId>)
      returns (r: Result<(), Refusal>)
      modifies this
      ensures Made(r, SubmitZk(old(Stored()), now, id, domain, nullifier, verified, applied), old(Stored()), Stored())
    {
      hide AfterEvidence, Live;
      if config.None? { return Err(NotEnrolled); }
      if !config.value.zk { return Err(ModeHasNoZk); }
      var loaded := LoadLive(Stored(), now, id);
      if loaded.Err? { return Err(loaded.error); }
      var a := loaded.value;
      match domain {
        case Initiation =>
          if a.phase != Collecting { return Err(AttemptNotCollecting); }
          if a.nullifier.Some? { return Err(AlreadyCounted); }
        case Cancellation =>
          if a.cancelZk { return Err(AlreadyCounted); }
      }
      if now > ValidUntil(a, domain) { return Err(EvidenceExpired); }
      if !verified { return Err(ZkEvidenceRejected); }
      if nullifier in spent { return Err(NullifierSpent); }
      r := CountEvidence(now, WithProof(a, domain, nullifier), domain, applied);
    }

    /** Promote or cancel if the condition is now met; otherwise save the evidence. */
    method CountEvidence(now: u32, a: Attempt, domain: Domain, applied: Option<DocId>) returns (r: Result<(), Refusal>)
      requires config.Some?
      modifies this
      ensures Made(r, AfterEvidence(old(Stored()), now, old(config).value, a, domain, applied), old(Stored()), Stored())
    {
      hide AuthorizedLive, Cancel;
      match domain {
        case Initiation =>
          if InitiationMet(config.value, a) { r := Authorize(now, a, applied); return; }
        case Cancellation =>
          if CancellationMet(config.value, a) { r := CancelAttempt(a, true); return; }
      }
      attempts := attempts[a.id := a];
      return Ok(());
    }

    method Authorize(now: u32, a: Attempt, applied: Option<DocId>) returns (r: Result<(), Refusal>)
      requires config.Some?
      modifies this
      ensures Made(r, Promote(old(Stored()), now, old(config).value, a, applied), old(Stored()), Stored())
    {
      hide AuthorizedLive;
      if AuthorizedLive(Stored(), now).Some? { return Err(AttemptAuthorized); }
      if a.action == LostKey && applied != Some(a.source) {
        attempts := attempts[a.id := a.(phase := Invalidated)];
        return Ok(());
      }
      var executable := now + config.value.delay;
      var expires := executable + config.value.expiry;
      if expires > U32_MAX { return Err(LedgerOverflow); }
      attempts := attempts[a.id := a.(phase := Authorized, authorizedAt := now, executableAfter := executable,
                                      expiresAt := expires)];
      invalidateBelow := nextAttempt;
      authorized := Some(a.id);
      return Ok(());
    }

    method CancelAttempt(a: Attempt, counted: bool) returns (r: Result<(), Refusal>)
      requires config.Some?
      modifies this
      ensures Made(r, Cancel(old(Stored()), old(config).value, a, counted), old(Stored()), Stored())
    {
      if counted && a.phase == Authorized {
        if cancels >= config.value.maxCancels { return Err(MaxCancelsReached); }
        cancels := cancels + 1;
      }
      attempts := attempts[a.id := a.(phase := Cancelled)];
      if a.phase == Authorized { authorized := None; }
      return Ok(());
    }

    /** The owner cancels, under the profile that allows it. */
    method RcvCancel(now: u32, id: nat) returns (r: Result<(), Refusal>)
      modifies this
      ensures Made(r, OwnerCancel(old(Stored()), now, id), old(Stored()), Stored())
    {
      hide Cancel, Live;
      if config.None? { return Err(NotEnrolled); }
      if config.value.profile != Loss { return Err(OwnerCancelRefused); }
      var loaded := LoadLive(Stored(), now, id);
      if loaded.Err? { return Err(loaded.error); }
      r := CancelAttempt(loaded.value, false);
    }

    /** Authorize the completing call and leave its marker. */
    method AuthorizeCompletion(now: u32, target: Option<DocId>) returns (r: Result<(), Refusal>)
      modifies this
      ensures Made(r, Enforce(old(Stored()), now, target), old(Stored()), Stored())
    {
      hide AuthorizedLive;
      if target.None? { return Err(WrongTarget); }
      if config.None? { return Err(NotEnrolled); }
      var a := AuthorizedLive(Stored(), now);
      if a.None? { return Err(AttemptNotLive); }
      if now < a.value.executableAfter { return Err(NotExecutableYet); }
      if target.value != a.value.target { return Err(WrongTarget); }
      marker := Some(Marker(a.value.id, a.value.target, now));
      return Ok(());
    }

    /** The controller's side of an applied document. */
    method Synchronize(now: u32, ch: Change) returns (r: Result<Sync, Refusal>)
      modifies this
      ensures match RcvSync(old(Stored()), account, here, now, ch)
              case Ok(n) => r == Ok(n.outcome) && Stored() == n.store
              case Err(e) => r == Err(e) && Stored() == old(Stored())
    {
      hide AuthorizedLive, Servable;
      var live := AuthorizedLive(Stored(), now);
      if MarkerCurrent(Stored(), now, ch.doc) {
        r := FinishAttempt(live.value, ch);
        return;
      }
      if live.Some? { return Err(AttemptAuthorized); }
      var stays := ch.config.Some? && ch.config.value.controller == here;
      if config.None? {
        if ch.config.None? { marker := None; return Ok(Unchanged); }
        if !stays || !Servable(account, ch.config.value) { return Err(InvalidConfiguration); }
        if !ch.factorOk { return Err(Refusal.ZkFactorChangedInPlace); }
        if !ch.wired { return Err(ZkWiringMismatch); }
        marker, config, epoch := None, ch.config, epoch + 1;
        return Ok(Enrolled);
      }
      if stays && ch.config.value.hash == config.value.hash { marker := None; return Ok(Unchanged); }
      if config.value.profile == Protected && !ch.approved { return Err(ConditionNotMet); }
      if !stays {
        marker, config, authorized, epoch := None, None, None, epoch + 1;
        return Ok(Removed);
      }
      if !Servable(account, ch.config.value) { return Err(InvalidConfiguration); }
      if !ch.factorOk { return Err(Refusal.ZkFactorChangedInPlace); }
      if !ch.wired { return Err(ZkWiringMismatch); }
      marker, config, epoch := None, ch.config, epoch + 1;
      return Ok(Reconfigured);
    }

    method FinishAttempt(a: Attempt, ch: Change) returns (r: Result<Sync, Refusal>)
      modifies this
      ensures match Complete(old(Stored()).(marker := None), here, a, ch)
              case Ok(n) => r == Ok(n.outcome) && Stored() == n.store
              case Err(e) => r == Err(e) && Stored() == old(Stored())
    {
      if a.target != ch.doc || ch.config.None? { return Err(WrongTarget); }
      if ch.config.value.controller != here || ch.config.value.hash != a.targetConfig { return Err(WrongTarget); }
      if a.nullifier.Some? {
        if a.nullifier.value in spent { return Err(NullifierSpent); }
        spent := spent + {a.nullifier.value};
      }
      attempts := attempts[a.id := a.(phase := Finished)];
      authorized, marker := None, None;
      config, epoch := ch.config, epoch + 1;
      return Ok(Completed(Some(a.replaced)));
    }

    /** An executed upgrade ends the epoch. */
    method ExecuteUpgrade(now: u32, recorded: nat) returns (r: Result<(), Refusal>)
      modifies this
      ensures Made(r, UpgradeExecuted(old(Stored()), now, recorded), old(Stored()), Stored())
    {
      hide AuthorizedLive;
      if config.None? { return Err(NotEnrolled); }
      if AuthorizedLive(Stored(), now).Some? { return Err(AttemptAuthorized); }
      if recorded != epoch { return Err(StaleUpgrade); }
      epoch := epoch + 1;
      return Ok(());
    }
  }
}
