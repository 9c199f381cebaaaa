/** The recovery controller (crates/perch-recovery/src/contract.rs): one account's
    configuration, attempts, evidence and completions at one controller. */
module Controller {
  import opened Base
  import opened Field
  import opened Doc
  import opened Revocation
  import opened Account

  /** A document, identified by its hash's preimage. */
  type DocId = string

  /** The compiler: the fingerprints of a document's credentials. */
  type Fingerprints = DocId -> seq<Fingerprint>

  datatype Config = Config(
    hash: string, controller: string, profile: RecoveryProfile, guardians: Option<GuardianSet>, zk: bool,
    baseline: Option<DocId>, delay: u32, expiry: u32, maxCancels: u32)

  datatype Domain = Initiation | Cancellation
  datatype Phase = Collecting | Authorized | Finished | Cancelled | Invalidated

  datatype Attempt = Attempt(
    id: nat, action: RecoveryAction, epoch: nat, evidenceDeadline: u32, cancelUntil: u32,
    authorizedAt: u32, executableAfter: u32, expiresAt: u32,
    source: DocId, target: DocId, targetConfig: string, replaced: seq<Fingerprint>, phase: Phase,
    guardians: seq<string>, nullifier: Option<Bytes32>, cancelGuardians: seq<string>, cancelZk: bool)

  /** Left by the authorization of a completing call for the call itself. */
  datatype Marker = Marker(id: nat, target: DocId, ledger: u32)

  datatype Store = Store(
    config: Option<Config>, epoch: nat, nextAttempt: nat, invalidateBelow: nat, authorized: Option<nat>,
    cancels: u32, attempts: map<nat, Attempt>, marker: Option<Marker>, spent: set<Bytes32>)

  datatype Refusal =
    | NotEnrolled | AttemptAuthorized | InvalidReplacements | NoBaseline | BaselineNotPublished | EnrollmentIdReused
    | CredentialRevoked | ReplacedCredentialRetained | LedgerOverflow | ModeHasNoGuardians | NotAGuardian
    | NoSuchAttempt | AttemptNotLive | AttemptNotCollecting | AlreadyCounted | EvidenceExpired | NotSigned | ModeHasNoZk
    | ZkEvidenceRejected | NullifierSpent | MaxCancelsReached | OwnerCancelRefused | NotExecutableYet | WrongTarget
    | InvalidConfiguration | ZkFactorChangedInPlace | ZkWiringMismatch | ConditionNotMet | StaleUpgrade

  const EMPTY := Store(None, 0, 0, 0, None, 0, map[], None, {})

  // ----- liveness -----

  /** The epoch is current, the phase is open, no sibling was authorized first, and the
      phase's window is open. */
  predicate Live(s: Store, now: u32, a: Attempt) {
    a.epoch == s.epoch &&
    match a.phase
    case Collecting => a.id >= s.invalidateBelow && now <= a.evidenceDeadline
    case Authorized => s.authorized == Some(a.id) && now < a.expiresAt
    case _ => false
  }

  function AuthorizedLive(s: Store, now: u32): Option<Attempt> {
    if s.authorized.Some? && s.authorized.value in s.attempts && Live(s, now, s.attempts[s.authorized.value])
    then Some(s.attempts[s.authorized.value]) else None
  }

  function LoadLive(s: Store, now: u32, id: nat): Result<Attempt, Refusal> {
    if id !in s.attempts then Err(NoSuchAttempt)
    else if !Live(s, now, s.attempts[id]) then Err(AttemptNotLive)
    else Ok(s.attempts[id])
  }

  function Save(s: Store, a: Attempt): Store {
    s.(attempts := s.attempts[a.id := a])
  }

  function Add(a: u32, b: u32): Result<u32, Refusal> {
    if a + b <= U32_MAX then Ok(a + b) else Err(LedgerOverflow)
  }

  // ----- beginning -----

  /** What a derivation yields. The credentials it replaces may have no fingerprint. */
  datatype Derivation = Derivation(target: DocId, config: string, replaced: Option<seq<Fingerprint>>)

  /** The account's and the compiler's side of a new attempt. */
  datatype Request = Request(
    canonical: bool, enrollments: nat, applied: Option<DocId>, published: bool, derived: Option<Derivation>,
    enrolledBefore: bool, revoked: set<Fingerprint>)

  function SourceOf(config: Config, action: RecoveryAction, req: Request): Result<DocId, Refusal> {
    if req.applied.None? then Err(NotEnrolled)
    else if action == LostKey then Ok(req.applied.value)
    else if config.baseline.None? then Err(NoBaseline)
    else if !req.published then Err(BaselineNotPublished)
    else Ok(config.baseline.value)
  }

  function Begin(s: Store, fps: Fingerprints, now: u32, action: RecoveryAction, req: Request): Result<Store, Refusal> {
    if s.config.None? then Err(NotEnrolled)
    else if AuthorizedLive(s, now).Some? then Err(AttemptAuthorized)
    else if !req.canonical || s.config.value.zk != (req.enrollments == 1) then Err(InvalidReplacements)
    else
      var source :- SourceOf(s.config.value, action, req);
      if req.derived.None? then Err(InvalidReplacements)
        else BeginDerived(s, fps, now, action, req, source, req.derived.value)
  }

  function BeginDerived(s: Store, fps: Fingerprints, now: u32, action: RecoveryAction, req: Request, source: DocId,
                        d: Derivation)
    : Result<Store, Refusal>
    requires s.config.Some?
  {
    var config := s.config.value;
    if req.enrollments > 0 && req.enrolledBefore then Err(EnrollmentIdReused)
    else if !NoneIn(fps(d.target), req.revoked) then Err(CredentialRevoked)
    else if d.replaced.None? then Err(InvalidReplacements)
    else if !ReplacedLeave(d.replaced.value, fps(d.target)) then Err(ReplacedCredentialRetained)
    else
      var deadline :- Add(now, config.expiry);
      var executable :- Add(deadline, config.delay);
      var cancelUntil :- Add(executable, config.expiry);
      var a := Attempt(s.nextAttempt, action, s.epoch, deadline, cancelUntil, 0, 0, 0, source, d.target, d.config,
                       d.replaced.value, Collecting, [], None, [], false);
      Ok(Save(s, a).(nextAttempt := s.nextAttempt + 1))
  }

  // ----- evidence -----

  predicate InitiationMet(config: Config, a: Attempt) {
    && (config.guardians.Some? ==> |a.guardians| >= config.guardians.value.quorum)
    && (config.zk ==> a.nullifier.Some?)
  }

  predicate CancellationMet(config: Config, a: Attempt) {
    && (config.guardians.Some? ==> |a.cancelGuardians| >= config.guardians.value.quorum)
    && (config.zk ==> a.cancelZk)
  }

  /** The freshness bound of the statement the evidence is about. */
  function ValidUntil(a: Attempt, domain: Domain): u32 {
    if domain == Initiation then a.evidenceDeadline else a.cancelUntil
  }

  function WithGuardian(a: Attempt, domain: Domain, g: string): Attempt {
    if domain == Initiation then a.(guardians := a.guardians + [g]) else a.(cancelGuardians := a.cancelGuardians + [g])
  }

  function WithProof(a: Attempt, domain: Domain, nullifier: Bytes32): Attempt {
    if domain == Initiation then a.(nullifier := Some(nullifier)) else a.(cancelZk := true)
  }

  function SubmitGuardian(s: Store, now: u32, id: nat, domain: Domain, g: string, signed: bool, applied: Option<DocId>)
    : Result<Store, Refusal>
  {
    if s.config.None? then Err(NotEnrolled)
    else if s.config.value.guardians.None? then Err(ModeHasNoGuardians)
    else if g !in s.config.value.guardians.value.guardians then Err(NotAGuardian)
    else
      var a :- LoadLive(s, now, id);
      if domain == Initiation && a.phase != Collecting then Err(AttemptNotCollecting)
      else if g in (if domain == Initiation then a.guardians else a.cancelGuardians) then Err(AlreadyCounted)
      else if now > ValidUntil(a, domain) then Err(EvidenceExpired)
      else if !signed then Err(NotSigned)
      else
        AfterEvidence(s, now, s.config.value, WithGuardian(a, domain, g), domain, applied)
  }

  function SubmitZk(s: Store, now: u32, id: nat, domain: Domain, nullifier: Bytes32, verified: bool,
                    applied: Option<DocId>)
    : Result<Store, Refusal>
  {
    if s.config.None? then Err(NotEnrolled)
    else if !s.config.value.zk then Err(ModeHasNoZk)
    else
      var a :- LoadLive(s, now, id);
      if domain == Initiation && a.phase != Collecting then Err(AttemptNotCollecting)
      else if (if domain == Initiation then a.nullifier.Some? else a.cancelZk) then Err(AlreadyCounted)
      else if now > ValidUntil(a, domain) then Err(EvidenceExpired)
      else if !verified then Err(ZkEvidenceRejected)
      else if nullifier in s.spent then Err(NullifierSpent)
      else
        AfterEvidence(s, now, s.config.value, WithProof(a, domain, nullifier), domain, applied)
  }

  /** Promote or cancel once the domain's condition is met; otherwise keep the evidence. */
  function AfterEvidence(s: Store, now: u32, config: Config, a: Attempt, domain: Domain, applied: Option<DocId>)
    : Result<Store, Refusal>
  {
    match domain
    case Initiation => if InitiationMet(config, a) then Promote(s, now, config, a, applied) else Ok(Save(s, a))
    case Cancellation => if CancellationMet(config, a) then Cancel(s, config, a, true) else Ok(Save(s, a))
  }

  /** Authorize, open the completion window and invalidate every sibling. A lost-key attempt
      whose source is no longer applied is invalidated instead. */
  function Promote(s: Store, now: u32, config: Config, a: Attempt, applied: Option<DocId>): Result<Store, Refusal> {
    if AuthorizedLive(s, now).Some? then Err(AttemptAuthorized)
    else if a.action == LostKey && applied != Some(a.source) then Ok(Save(s, a.(phase := Invalidated)))
    else
      var executable :- Add(now, config.delay);
      var expires :- Add(executable, config.expiry);
      Ok(Save(s, a.(phase := Authorized, authorizedAt := now, executableAfter := executable, expiresAt := expires))
         .(invalidateBelow := s.nextAttempt, authorized := Some(a.id)))
  }

  /** Only an evidence-based cancellation of an authorized attempt is counted. */
  function Cancel(s: Store, config: Config, a: Attempt, counted: bool): Result<Store, Refusal> {
    var was := a.phase == Authorized;
    if counted && was && s.cancels >= config.maxCancels then Err(MaxCancelsReached)
    else
      var saved := Save(s, a.(phase := Cancelled));
      var one := if counted && was then saved.(cancels := s.cancels + 1) else saved;
      Ok(if was then one.(authorized := None) else one)
  }

  function OwnerCancel(s: Store, now: u32, id: nat): Result<Store, Refusal> {
    if s.config.None? then Err(NotEnrolled)
    else if s.config.value.profile != Loss then Err(OwnerCancelRefused)
    else
      var a :- LoadLive(s, now, id);
      Cancel(s, s.config.value, a, false)
  }

  // ----- completing -----

  /** Authorize the completing call: the exact target, inside the completion window. Without a
      target, the call is not this account's `apply_doc` of some bytes. */
  function Enforce(s: Store, now: u32, target: Option<DocId>): Result<Store, Refusal> {
    if target.None? then Err(WrongTarget)
    else if s.config.None? then Err(NotEnrolled)
    else
      match AuthorizedLive(s, now)
      case None => Err(AttemptNotLive)
      case Some(a) =>
        if now < a.executableAfter then Err(NotExecutableYet)
        else if target.value != a.target then Err(WrongTarget)
        else Ok(s.(marker := Some(Marker(a.id, a.target, now))))
  }

  /** A marker counts for its document, in its ledger, while its attempt is authorized. */
  predicate MarkerCurrent(s: Store, now: u32, doc: DocId) {
    && s.marker.Some? && s.marker.value.target == doc && s.marker.value.ledger == now
    && AuthorizedLive(s, now).Some? && AuthorizedLive(s, now).value.id == s.marker.value.id
  }

  datatype Synced = Synced(store: Store, outcome: Sync)

  /** An applied document, its recovery member, and what the checks outside this contract
      say: recorded approvals for a change, and how a proof factor changes and is wired. */
  datatype Change = Change(doc: DocId, config: Option<Config>, approved: bool, factorOk: bool, wired: bool)

  /** A proof factor stays unchanged or carries a new id, and a new one can be proved. */
  function WiringRefusal(ch: Change): Option<Refusal> {
    if !ch.factorOk then Some(Refusal.ZkFactorChangedInPlace) else if !ch.wired then Some(ZkWiringMismatch) else None
  }

  function StoreConfig(s: Store, config: Config): Store {
    s.(config := Some(config), epoch := s.epoch + 1)
  }

  /** The controller's side of an applied document. */
  function RcvSync(s: Store, account: string, here: string, now: u32, ch: Change): Result<Synced, Refusal> {
    var cleared := s.(marker := None);
    if MarkerCurrent(s, now, ch.doc) then Complete(cleared, here, AuthorizedLive(s, now).value, ch)
    else if AuthorizedLive(s, now).Some? then Err(AttemptAuthorized)
    else if s.config.None? then
      if ch.config.None? then Ok(Synced(cleared, Unchanged))
      else if ch.config.value.controller != here || !Servable(account, ch.config.value) then Err(InvalidConfiguration)
      else if WiringRefusal(ch).Some? then Err(WiringRefusal(ch).value)
      else Ok(Synced(StoreConfig(cleared, ch.config.value), Enrolled))
    else Reconfigure(cleared, account, here, ch)
  }

  function Reconfigure(s: Store, account: string, here: string, ch: Change): Result<Synced, Refusal>
    requires s.config.Some?
  {
    var stays := ch.config.Some? && ch.config.value.controller == here;
    if stays && ch.config.value.hash == s.config.value.hash then Ok(Synced(s, Unchanged))
    else if s.config.value.profile == Protected && !ch.approved then Err(ConditionNotMet)
    else if !stays then Ok(Synced(s.(config := None, authorized := None, epoch := s.epoch + 1), Removed))
    else if !Servable(account, ch.config.value) then Err(InvalidConfiguration)
    else if WiringRefusal(ch).Some? then Err(WiringRefusal(ch).value)
    else Ok(Synced(StoreConfig(s, ch.config.value), Reconfigured))
  }

  /** A quorum that can be reached without the account itself, and windows that exist. */
  predicate Servable(account: string, config: Config) {
    && config.delay != 0 && config.expiry != 0 && config.maxCancels != 0
    && (config.guardians.Some? ==>
          var g := config.guardians.value; account !in g.guardians && 1 <= g.quorum <= |g.guardians|)
  }

  function Complete(s: Store, here: string, a: Attempt, ch: Change): Result<Synced, Refusal> {
    if a.target != ch.doc || ch.config.None? then Err(WrongTarget)
    else if ch.config.value.controller != here || ch.config.value.hash != a.targetConfig then Err(WrongTarget)
    else if a.nullifier.Some? && a.nullifier.value in s.spent then Err(NullifierSpent)
    else
      var spent := if a.nullifier.Some? then s.spent + {a.nullifier.value} else s.spent;
      var done := Save(s, a.(phase := Finished)).(authorized := None, spent := spent);
      Ok(Synced(StoreConfig(done, ch.config.value), Completed(Some(a.replaced))))
  }

  /** An executed upgrade ends the epoch. */
  function UpgradeExecuted(s: Store, now: u32, recorded: nat): Result<Store, Refusal> {
    if s.config.None? then Err(NotEnrolled)
    else if AuthorizedLive(s, now).Some? then Err(AttemptAuthorized)
    else if recorded != s.epoch then Err(StaleUpgrade)
    else Ok(s.(epoch := s.epoch + 1))
  }

  // ----- calls and runs -----

  datatype Call =
    | BeginCall(now: u32, action: RecoveryAction, req: Request)
    | GuardianCall(now: u32, id: nat, domain: Domain, guardian: string, signed: bool, applied: Option<DocId>)
    | ZkCall(now: u32, id: nat, domain: Domain, nullifier: Bytes32, verified: bool, applied: Option<DocId>)
    | OwnerCancelCall(now: u32, id: nat)
    | EnforceCall(now: u32, target: Option<DocId>)
    | SyncCall(now: u32, change: Change)
    | UpgradeCall(now: u32, recorded: nat)

  /** Where the controller and the account are, and what the compiler does. */
  datatype Setting = Setting(account: string, here: string, fps: Fingerprints)

  function Served(e: Setting, s: Store, call: Call): Result<Store, Refusal> {
    match call
    case BeginCall(now, action, req) => Begin(s, e.fps, now, action, req)
    case GuardianCall(now, id, domain, g, signed, applied) => SubmitGuardian(s, now, id, domain, g, signed, applied)
    case ZkCall(now, id, domain, nullifier, verified, applied) =>
      SubmitZk(s, now, id, domain, nullifier, verified, applied)
    case OwnerCancelCall(now, id) => OwnerCancel(s, now, id)
    case EnforceCall(now, target) => Enforce(s, now, target)
    case SyncCall(now, change) =>
      (match RcvSync(s, e.account, e.here, now, change) case Ok(r) => Ok(r.store) case Err(x) => Err(x))
    case UpgradeCall(now, recorded) => UpgradeExecuted(s, now, recorded)
  }

  /** A refused call changes nothing. */
  function Next(e: Setting, s: Store, call: Call): Store {
    match Served(e, s, call) case Ok(n) => n case Err(_) => s
  }

  function After(e: Setting, s: Store, calls: seq<Call>): Store {
    if calls == [] then s else Next(e, After(e, s, calls[..|calls|-1]), calls[|calls|-1])
  }

  // ----- what every reachable store satisfies -----

  predicate IsGuardian(config: Config, g: string) {
    config.guardians.Some? && g in config.guardians.value.guardians
  }

  predicate AllEnrolled(config: Config, gs: seq<string>) {
    forall i :: 0 <= i < |gs| ==> IsGuardian(config, gs[i])
  }

  /** The evidence and the windows of an attempt of the current epoch, by its configuration. */
  ghost predicate ByConfig(config: Config, a: Attempt) {
    && AllEnrolled(config, a.guardians) && AllEnrolled(config, a.cancelGuardians)
    && a.cancelUntil == a.evidenceDeadline + config.delay + config.expiry
    && (a.phase == Authorized ==>
          && InitiationMet(config, a)
          && a.authorizedAt <= a.evidenceDeadline
          && a.executableAfter == a.authorizedAt + config.delay
          && a.expiresAt == a.executableAfter + config.expiry)
  }

  ghost predicate AttemptOk(e: Setting, s: Store, id: nat, a: Attempt) {
    && a.id == id < s.nextAttempt && a.epoch <= s.epoch
    && NoDuplicates(a.guardians) && NoDuplicates(a.cancelGuardians)
    && ReplacedLeave(a.replaced, e.fps(a.target))
    && (a.epoch == s.epoch ==> s.config.Some? && ByConfig(s.config.value, a))
    && (a.nullifier.Some? && a.phase == Finished ==> a.nullifier.value in s.spent)
    && (a.nullifier.Some? && a.epoch == s.epoch && Open(a) ==> a.nullifier.value !in s.spent)
  }

  predicate Open(a: Attempt) {
    a.phase == Collecting || a.phase == Authorized
  }

  ghost predicate MarkerOk(s: Store) {
    s.marker.Some? ==>
      && s.marker.value.id in s.attempts
      && var a := s.attempts[s.marker.value.id];
         a.target == s.marker.value.target && a.phase != Collecting && a.executableAfter <= s.marker.value.ledger
  }

  predicate AuthorizedOk(s: Store) {
    s.authorized.Some? ==> s.authorized.value in s.attempts && s.attempts[s.authorized.value].phase == Authorized
  }

  ghost predicate Sound(e: Setting, s: Store) {
    && s.invalidateBelow <= s.nextAttempt
    && (forall id :: id in s.attempts ==> AttemptOk(e, s, id, s.attempts[id]))
    && MarkerOk(s) && AuthorizedOk(s)
    && (s.config.Some? ==> s.config.value.controller == e.here)
  }

  /** Replacing one attempt by a sound one keeps a store sound. */
  lemma SavedSound(e: Setting, s: Store, a: Attempt, n: Store)
    requires Sound(e, s) && n.attempts == s.attempts[a.id := a] && n.marker == s.marker
    requires n.config == s.config && n.epoch == s.epoch && n.spent == s.spent
    requires n.nextAttempt >= s.nextAttempt && n.invalidateBelow <= n.nextAttempt
    requires AttemptOk(e, n, a.id, a) && AuthorizedOk(n)
    requires s.marker.Some? && s.marker.value.id == a.id ==>
               a.phase != Collecting && a.target == s.marker.value.target && a.executableAfter <= s.marker.value.ledger
    ensures Sound(e, n)
  {
    hide ByConfig, ReplacedLeave, NoDuplicates;
    forall id | id in n.attempts ensures AttemptOk(e, n, id, n.attempts[id]) {
      if id != a.id { assert AttemptOk(e, s, id, s.attempts[id]); }
    }
  }

  lemma CountedSound(e: Setting, s: Store, cancels: u32)
    requires Sound(e, s)
    ensures Sound(e, s.(cancels := cancels))
  {
    hide ByConfig, ReplacedLeave, NoDuplicates;
    forall id | id in s.attempts ensures AttemptOk(e, s.(cancels := cancels), id, s.attempts[id]) {
      assert AttemptOk(e, s, id, s.attempts[id]);
    }
  }

  /** Ending the epoch keeps a store sound, whatever the next configuration. */
  lemma EpochEnds(e: Setting, s: Store, n: Store)
    requires Sound(e, s) && n.attempts == s.attempts && n.epoch > s.epoch && n.spent >= s.spent
    requires n.nextAttempt == s.nextAttempt && n.invalidateBelow == s.invalidateBelow
    requires n.config.Some? ==> n.config.value.controller == e.here
    requires (n.marker.Some? ==> n.marker == s.marker) && (n.authorized.Some? ==> n.authorized == s.authorized)
    ensures Sound(e, n)
  {
    hide ByConfig, ReplacedLeave, NoDuplicates;
    forall id | id in n.attempts ensures AttemptOk(e, n, id, n.attempts[id]) {
      assert AttemptOk(e, s, id, s.attempts[id]);
    }
  }

  lemma BeginSound(e: Setting, s: Store, now: u32, action: RecoveryAction, req: Request)
    requires Sound(e, s) && Begin(s, e.fps, now, action, req).Ok?
    ensures Sound(e, Begin(s, e.fps, now, action, req).value)
  {
    hide ReplacedLeave, AuthorizedLive, NoneIn;
    var n := Begin(s, e.fps, now, action, req).value;
    var a := n.attempts[s.nextAttempt];
    assert s.nextAttempt !in s.attempts;
    SavedSound(e, s, a, n);
  }

  lemma SameByConfig(config: Config, was: Attempt, a: Attempt)
    requires SameButCancel(config, was, a) && ByConfig(config, was)
    ensures ByConfig(config, a)
  {
    assert a.guardians == was.guardians && a.cancelUntil == was.cancelUntil &&
           a.evidenceDeadline == was.evidenceDeadline;
    assert a.authorizedAt == was.authorizedAt && a.executableAfter == was.executableAfter;
    assert a.expiresAt == was.expiresAt && a.nullifier == was.nullifier;
  }

  /** A cancelled attempt is authorized no longer. */
  function AuthorizedWith(s: Store, a: Attempt): Option<nat> {
    if a.phase == Cancelled && s.authorized == Some(a.id) then None else s.authorized
  }

  lemma SaveSound(e: Setting, s: Store, now: u32, was: Attempt, a: Attempt)
    requires Sound(e, s) && s.config.Some? && LoadLive(s, now, was.id) == Ok(was)
    requires SameButCancel(s.config.value, was, a)
    ensures Sound(e, Save(s, a).(authorized := AuthorizedWith(s, a)))
  {
    hide ReplacedLeave;
    assert AttemptOk(e, s, was.id, was);
    assert a.id == was.id && a.epoch == was.epoch && a.guardians == was.guardians && a.target == was.target;
    assert a.replaced == was.replaced && a.nullifier == was.nullifier;
    if a.epoch == s.epoch { SameByConfig(s.config.value, was, a); }
    SavedSound(e, s, a, Save(s, a).(authorized := AuthorizedWith(s, a)));
  }

  /** Cancellation evidence and a cancellation leave the rest of an attempt alone. */
  ghost predicate SameButCancel(config: Config, was: Attempt, a: Attempt) {
    && (a.phase == was.phase || a.phase == Cancelled)
    && a == was.(cancelGuardians := a.cancelGuardians, cancelZk := a.cancelZk, phase := a.phase)
    && NoDuplicates(a.cancelGuardians) && AllEnrolled(config, a.cancelGuardians)
  }

  lemma CancelSound(e: Setting, s: Store, now: u32, was: Attempt, a: Attempt, counted: bool)
    requires Sound(e, s) && s.config.Some? && LoadLive(s, now, was.id) == Ok(was)
    requires SameButCancel(s.config.value, was, a)
    requires a.phase == was.phase && Cancel(s, s.config.value, a, counted).Ok?
    ensures Sound(e, Cancel(s, s.config.value, a, counted).value)
  {
    hide ReplacedLeave, AttemptOk;
    var done, n := a.(phase := Cancelled), Cancel(s, s.config.value, a, counted).value;
    SaveSound(e, s, now, was, done);
    var saved := Save(s, done).(authorized := n.authorized);
    CountedSound(e, saved, n.cancels);
    assert n == saved.(cancels := n.cancels);
  }

  /** A collecting attempt with one more piece of initiation evidence. */
  ghost predicate OneMore(s: Store, was: Attempt, a: Attempt)
    requires s.config.Some?
  {
    && was.phase == Collecting
    && (|| (a == was.(nullifier := a.nullifier) && a.nullifier.Some? && a.nullifier.value !in s.spent)
        || exists g ::
             IsGuardian(s.config.value, g) && g !in was.guardians && a == was.(guardians := was.guardians + [g]))
  }

  lemma OneMoreOk(e: Setting, s: Store, was: Attempt, a: Attempt)
    requires s.config.Some? && AttemptOk(e, s, was.id, was) && OneMore(s, was, a)
    ensures AttemptOk(e, s, was.id, a) && a.phase == Collecting
  {
    hide ReplacedLeave, IsGuardian;
  }

  lemma PromoteSound(e: Setting, s: Store, now: u32, a: Attempt, applied: Option<DocId>)
    requires Sound(e, s) && s.config.Some? && a.id in s.attempts && s.attempts[a.id].phase == Collecting
    requires AttemptOk(e, s, a.id, a) && a.phase == Collecting && a.epoch == s.epoch && now <= a.evidenceDeadline
    requires InitiationMet(s.config.value, a) && Promote(s, now, s.config.value, a, applied).Ok?
    ensures Sound(e, Promote(s, now, s.config.value, a, applied).value)
  {
    hide ReplacedLeave, AuthorizedLive, NoDuplicates, AllEnrolled;
    var n := Promote(s, now, s.config.value, a, applied).value;
    SavedSound(e, s, n.attempts[a.id], n);
  }

  lemma InitiationSound(e: Setting, s: Store, now: u32, was: Attempt, a: Attempt, applied: Option<DocId>)
    requires Sound(e, s) && s.config.Some? && LoadLive(s, now, was.id) == Ok(was) && OneMore(s, was, a)
    requires AfterEvidence(s, now, s.config.value, a, Initiation, applied).Ok?
    ensures Sound(e, AfterEvidence(s, now, s.config.value, a, Initiation, applied).value)
  {
    hide ReplacedLeave, Promote, NoDuplicates, ByConfig;
    assert AttemptOk(e, s, was.id, was);
    OneMoreOk(e, s, was, a);
    if InitiationMet(s.config.value, a) {
      PromoteSound(e, s, now, a, applied);
    } else {
      SavedSound(e, s, a, Save(s, a));
    }
  }

  lemma CancellationSound(e: Setting, s: Store, now: u32, was: Attempt, a: Attempt, applied: Option<DocId>)
    requires Sound(e, s) && s.config.Some? && LoadLive(s, now, was.id) == Ok(was)
    requires SameButCancel(s.config.value, was, a)
    requires a.phase == was.phase && AfterEvidence(s, now, s.config.value, a, Cancellation, applied).Ok?
    ensures Sound(e, AfterEvidence(s, now, s.config.value, a, Cancellation, applied).value)
  {
    hide ReplacedLeave, Cancel, NoDuplicates, ByConfig, Live, AttemptOk;
    if CancellationMet(s.config.value, a) {
      CancelSound(e, s, now, was, a, true);
    } else {
      SaveSound(e, s, now, was, a);
      assert Save(s, a).(authorized := s.authorized) == Save(s, a);
    }
  }

  /** The cancellation evidence of a live attempt, and one more guardian's. */
  lemma LiveCancel(e: Setting, s: Store, now: u32, was: Attempt, g: string)
    requires Sound(e, s) && s.config.Some? && LoadLive(s, now, was.id) == Ok(was)
    ensures NoDuplicates(was.cancelGuardians) && AllEnrolled(s.config.value, was.cancelGuardians)
    ensures IsGuardian(s.config.value, g) && g !in was.cancelGuardians ==>
              var more := was.cancelGuardians + [g]; NoDuplicates(more) && AllEnrolled(s.config.value, more)
  {
    hide ReplacedLeave, IsGuardian;
    assert AttemptOk(e, s, was.id, was);
  }

  lemma GuardianSound(e: Setting, s: Store, now: u32, id: nat, domain: Domain, g: string, signed: bool,
                      applied: Option<DocId>)
    requires Sound(e, s) && SubmitGuardian(s, now, id, domain, g, signed, applied).Ok?
    ensures Sound(e, SubmitGuardian(s, now, id, domain, g, signed, applied).value)
  {
    hide ReplacedLeave, AfterEvidence, NoDuplicates, ByConfig, Live;
    var was := LoadLive(s, now, id).value;
    assert AttemptOk(e, s, id, was);
    assert IsGuardian(s.config.value, g);
    LiveCancel(e, s, now, was, g);
    match domain
    case Initiation => InitiationSound(e, s, now, was, was.(guardians := was.guardians + [g]), applied);
    case Cancellation => CancellationSound(e, s, now, was, was.(cancelGuardians := was.cancelGuardians + [g]), applied);
  }

  lemma ZkSound(e: Setting, s: Store, now: u32, id: nat, domain: Domain, nullifier: Bytes32, verified: bool,
                applied: Option<DocId>)
    requires Sound(e, s) && SubmitZk(s, now, id, domain, nullifier, verified, applied).Ok?
    ensures Sound(e, SubmitZk(s, now, id, domain, nullifier, verified, applied).value)
  {
    hide ReplacedLeave, AfterEvidence, NoDuplicates, ByConfig, Live;
    var was := LoadLive(s, now, id).value;
    assert AttemptOk(e, s, id, was);
    LiveCancel(e, s, now, was, "");
    match domain
    case Initiation => InitiationSound(e, s, now, was, was.(nullifier := Some(nullifier)), applied);
    case Cancellation => CancellationSound(e, s, now, was, was.(cancelZk := true), applied);
  }

  lemma EnforceSound(e: Setting, s: Store, now: u32, target: Option<DocId>)
    requires Sound(e, s) && Enforce(s, now, target).Ok?
    ensures Sound(e, Enforce(s, now, target).value)
  {
    hide ReplacedLeave, NoDuplicates, ByConfig;
    var n := Enforce(s, now, target).value;
    forall id | id in n.attempts ensures AttemptOk(e, n, id, n.attempts[id]) {
      assert AttemptOk(e, s, id, s.attempts[id]);
    }
  }

  /** Dropping the marker keeps a store sound. */
  lemma ClearedSound(e: Setting, s: Store)
    requires Sound(e, s)
    ensures Sound(e, s.(marker := None))
  {
    hide ReplacedLeave, NoDuplicates, ByConfig;
    var n := s.(marker := None);
    forall id | id in n.attempts ensures AttemptOk(e, n, id, n.attempts[id]) {
      assert AttemptOk(e, s, id, s.attempts[id]);
    }
  }

  lemma CompleteSound(e: Setting, s: Store, a: Attempt, ch: Change)
    requires Sound(e, s) && s.marker.None? && a.id in s.attempts && s.attempts[a.id] == a &&
             Complete(s, e.here, a, ch).Ok?
    ensures Sound(e, Complete(s, e.here, a, ch).value.store)
  {
    hide ReplacedLeave, NoDuplicates;
    var n := Complete(s, e.here, a, ch).value.store;
    var done := a.(phase := Finished);
    var mid := s.(authorized := None, spent := n.spent, config := ch.config, epoch := s.epoch + 1);
    assert AttemptOk(e, s, a.id, a);
    EpochEnds(e, s, mid);
    SavedSound(e, mid, done, n);
  }

  lemma SyncSound(e: Setting, s: Store, now: u32, ch: Change)
    requires Sound(e, s) && RcvSync(s, e.account, e.here, now, ch).Ok?
    ensures Sound(e, RcvSync(s, e.account, e.here, now, ch).value.store)
  {
    hide AttemptOk, Complete, Live;
    var cleared := s.(marker := None);
    ClearedSound(e, s);
    if MarkerCurrent(s, now, ch.doc) {
      var a := AuthorizedLive(s, now).value;
      assert a.id in s.attempts && s.attempts[a.id] == a by { AuthorizedStored(e, s, now); }
      CompleteSound(e, cleared, a, ch);
    } else {
      var n := RcvSync(s, e.account, e.here, now, ch).value.store;
      if n.epoch > s.epoch { EpochEnds(e, cleared, n); }
    }
  }

  lemma AuthorizedStored(e: Setting, s: Store, now: u32)
    requires Sound(e, s) && AuthorizedLive(s, now).Some?
    ensures var a := AuthorizedLive(s, now).value;
            && a.id in s.attempts && s.attempts[a.id] == a && s.authorized == Some(a.id)
            && a.phase == Authorized && a.epoch == s.epoch && now < a.expiresAt
  {
    hide ReplacedLeave, NoDuplicates, ByConfig;
    assert AttemptOk(e, s, s.authorized.value, s.attempts[s.authorized.value]);
  }

  /** Every accepted call keeps a store sound. */
  lemma NextSound(e: Setting, s: Store, call: Call)
    requires Sound(e, s)
    ensures Sound(e, Next(e, s, call))
  {
    hide Sound, Begin, SubmitGuardian, SubmitZk, OwnerCancel, Enforce, RcvSync;
    if Served(e, s, call).Ok? {
      match call
      case BeginCall(now, action, req) => BeginSound(e, s, now, action, req);
      case GuardianCall(now, id, domain, g, signed, applied) =>
        GuardianSound(e, s, now, id, domain, g, signed, applied);
      case ZkCall(now, id, domain, nf, verified, applied) => ZkSound(e, s, now, id, domain, nf, verified, applied);
      case OwnerCancelCall(now, id) => OwnerCancelSound(e, s, now, id);
      case EnforceCall(now, target) => EnforceSound(e, s, now, target);
      case SyncCall(now, change) => SyncSound(e, s, now, change);
      case UpgradeCall(now, recorded) => UpgradeSound(e, s, now, recorded);
    }
  }

  lemma OwnerCancelSound(e: Setting, s: Store, now: u32, id: nat)
    requires Sound(e, s) && OwnerCancel(s, now, id).Ok?
    ensures Sound(e, OwnerCancel(s, now, id).value)
  {
    hide ReplacedLeave, NoDuplicates, ByConfig, Cancel, Live;
    var a := LoadLive(s, now, id).value;
    assert AttemptOk(e, s, id, a);
    LiveCancel(e, s, now, a, "");
    CancelSound(e, s, now, a, a, false);
  }

  lemma UpgradeSound(e: Setting, s: Store, now: u32, recorded: nat)
    requires Sound(e, s) && UpgradeExecuted(s, now, recorded).Ok?
    ensures Sound(e, UpgradeExecuted(s, now, recorded).value)
  {
    hide AttemptOk, MarkerOk, AuthorizedLive;
    EpochEnds(e, s, UpgradeExecuted(s, now, recorded).value);
  }

  lemma {:induction false} RunSound(e: Setting, calls: seq<Call>)
    ensures Sound(e, After(e, EMPTY, calls))
  {
    hide Next, Sound;
    if calls == [] {
      EmptySound(e);
    } else {
      RunSound(e, calls[..|calls|-1]);
      NextSound(e, After(e, EMPTY, calls[..|calls|-1]), calls[|calls|-1]);
    }
  }

  lemma EmptySound(e: Setting)
    ensures Sound(e, EMPTY)
  {
  }

  // ----- what a completion needs -----

  /** Distinct enrolled guardians up to the quorum, and a proof, as far as the configuration
      asks for them. */
  ghost predicate EvidenceComplete(config: Config, a: Attempt) {
    InitiationMet(config, a) && NoDuplicates(a.guardians) && AllEnrolled(config, a.guardians)
  }

  /** No completion without the recorded evidence its configuration demands, all of it for
      this one attempt, before the delay and inside the window; it applies the attempt's own
      target, spends an unspent nullifier, and what it hands back leaves the account. */
  lemma CompletionRecorded(e: Setting, s: Store, now: u32, ch: Change)
    requires Sound(e, s) && RcvSync(s, e.account, e.here, now, ch).Ok?
    requires RcvSync(s, e.account, e.here, now, ch).value.outcome.Completed?
    ensures AuthorizedLive(s, now).Some? && s.config.Some?
    ensures var a, config := AuthorizedLive(s, now).value, s.config.value;
            var r := RcvSync(s, e.account, e.here, now, ch).value;
            && a.id in s.attempts && s.attempts[a.id] == a && a.epoch == s.epoch && a.target == ch.doc
            && EvidenceComplete(config, a)
            && a.authorizedAt <= a.evidenceDeadline && a.authorizedAt + config.delay == a.executableAfter
            && a.executableAfter <= now < a.expiresAt == a.executableAfter + config.expiry
            && (a.nullifier.Some? ==> a.nullifier.value !in s.spent && a.nullifier.value in r.store.spent)
            && r.outcome == Completed(Some(a.replaced)) && ReplacedLeave(a.replaced, e.fps(ch.doc))
            && r.store.attempts == s.attempts[a.id := a.(phase := Finished)] && r.store.epoch == s.epoch + 1
  {
    hide ReplacedLeave, NoDuplicates, AllEnrolled;
    var a := AuthorizedLive(s, now).value;
    AuthorizedStored(e, s, now);
    assert AttemptOk(e, s, a.id, a);
  }

  /** While an attempt is authorized and live, nothing but its completion gets through: no
      other document, no new attempt, no upgrade. */
  lemma WindowBlocks(e: Setting, s: Store, now: u32, ch: Change, action: RecoveryAction, req: Request, recorded: nat)
    requires AuthorizedLive(s, now).Some?
    ensures RcvSync(s, e.account, e.here, now, ch).Ok? ==>
            RcvSync(s, e.account, e.here, now, ch).value.outcome.Completed?
    ensures Begin(s, e.fps, now, action, req).Err? && UpgradeExecuted(s, now, recorded).Err?
  {
    hide AuthorizedLive;
  }

  /** Evidence for a live attempt is never late, and its windows always fit: two refusals
      that no reachable store gives. */
  lemma NeverLate(e: Setting, s: Store, now: u32, id: nat, domain: Domain, g: string, ok: bool, nf: Bytes32,
                  applied: Option<DocId>)
    requires Sound(e, s)
    ensures SubmitGuardian(s, now, id, domain, g, ok, applied) !in {Err(EvidenceExpired), Err(LedgerOverflow)}
    ensures SubmitZk(s, now, id, domain, nf, ok, applied) !in {Err(EvidenceExpired), Err(LedgerOverflow)}
  {
    hide ReplacedLeave, NoDuplicates, AllEnrolled;
    if id in s.attempts { assert AttemptOk(e, s, id, s.attempts[id]); }
  }

  // ----- attempts that are over -----

  /** Ended, of an earlier epoch, or superseded by a sibling's authorization. */
  predicate Closed(s: Store, a: Attempt) {
    || a.phase == Finished || a.phase == Cancelled || a.phase == Invalidated
    || a.epoch < s.epoch
    || (a.phase == Collecting && a.id < s.invalidateBelow)
    || (a.phase == Authorized && s.authorized != Some(a.id))
  }

  /** Calls change live attempts and add new ones, and do nothing else to attempts. */
  ghost predicate TouchesLive(s: Store, n: Store) {
    && s.epoch <= n.epoch && s.invalidateBelow <= n.invalidateBelow && s.spent <= n.spent &&
       s.nextAttempt <= n.nextAttempt
    && forall id :: id in s.attempts ==>
         && id in n.attempts
         && (Closed(s, s.attempts[id]) ==> n.attempts[id] == s.attempts[id] && Closed(n, n.attempts[id]))
  }

  predicate Keyed(s: Store) {
    forall id :: id in s.attempts ==> s.attempts[id].id == id
  }

  lemma SoundKeyed(e: Setting, s: Store)
    requires Sound(e, s)
    ensures Keyed(s)
  {
  }

  lemma OneTouched(s: Store, n: Store, a: Attempt)
    requires n.attempts == s.attempts[a.id := a] && (a.id in s.attempts ==> !Closed(s, s.attempts[a.id]))
    requires Keyed(s) && (n.authorized.Some? ==> n.authorized == s.authorized || n.authorized == Some(a.id))
    requires s.epoch <= n.epoch && s.invalidateBelow <= n.invalidateBelow && s.spent <= n.spent &&
             s.nextAttempt <= n.nextAttempt
    ensures TouchesLive(s, n)
  {
  }

  lemma BeginTouches(e: Setting, s: Store, now: u32, action: RecoveryAction, req: Request)
    requires Sound(e, s) && Begin(s, e.fps, now, action, req).Ok?
    ensures TouchesLive(s, Begin(s, e.fps, now, action, req).value)
  {
    hide ReplacedLeave, NoDuplicates, ByConfig, NoneIn, AuthorizedLive;
    SoundKeyed(e, s);
    assert s.nextAttempt !in s.attempts;
    var n := Begin(s, e.fps, now, action, req).value;
    OneTouched(s, n, n.attempts[s.nextAttempt]);
  }

  lemma LiveNotClosed(s: Store, now: u32, id: nat)
    requires Keyed(s) && LoadLive(s, now, id).Ok?
    ensures !Closed(s, s.attempts[id])
  {
  }

  lemma EvidenceTouches(e: Setting, s: Store, now: u32, config: Config, a: Attempt, domain: Domain,
                        applied: Option<DocId>)
    requires Sound(e, s) && LoadLive(s, now, a.id).Ok? && s.config == Some(config)
    requires AfterEvidence(s, now, config, a, domain, applied).Ok?
    ensures TouchesLive(s, AfterEvidence(s, now, config, a, domain, applied).value)
  {
    hide AttemptOk, MarkerOk, AuthorizedLive, InitiationMet, CancellationMet, Live, Closed;
    SoundKeyed(e, s);
    LiveNotClosed(s, now, a.id);
    var n := AfterEvidence(s, now, config, a, domain, applied).value;
    OneTouched(s, n, n.attempts[a.id]);
  }

  lemma CancelTouches(e: Setting, s: Store, now: u32, config: Config, a: Attempt, counted: bool)
    requires Sound(e, s) && LoadLive(s, now, a.id).Ok? && Cancel(s, config, a, counted).Ok?
    ensures TouchesLive(s, Cancel(s, config, a, counted).value)
  {
    hide AttemptOk, MarkerOk;
    SoundKeyed(e, s);
    OneTouched(s, Cancel(s, config, a, counted).value, a.(phase := Cancelled));
  }

  lemma SyncTouches(e: Setting, s: Store, now: u32, ch: Change)
    requires Sound(e, s) && RcvSync(s, e.account, e.here, now, ch).Ok?
    ensures TouchesLive(s, RcvSync(s, e.account, e.here, now, ch).value.store)
  {
    hide AttemptOk, MarkerOk, Servable, Live;
    SoundKeyed(e, s);
    var n := RcvSync(s, e.account, e.here, now, ch).value.store;
    if MarkerCurrent(s, now, ch.doc) {
      AuthorizedStored(e, s, now);
      OneTouched(s, n, AuthorizedLive(s, now).value.(phase := Finished));
    } else {
      assert n.attempts == s.attempts;
    }
  }

  lemma NextTouchesLive(e: Setting, s: Store, call: Call)
    requires Sound(e, s)
    ensures TouchesLive(s, Next(e, s, call))
  {
    hide ReplacedLeave, NoDuplicates, ByConfig, Begin, AfterEvidence, Cancel, RcvSync, MarkerOk, Live, AuthorizedLive;
    if Served(e, s, call).Ok? {
      match call
      case BeginCall(now, action, req) => BeginTouches(e, s, now, action, req);
      case GuardianCall(now, id, domain, g, signed, applied) =>
        var a := LoadLive(s, now, id).value;
        assert AttemptOk(e, s, id, a);
        EvidenceTouches(e, s, now, s.config.value, WithGuardian(a, domain, g), domain, applied);
      case ZkCall(now, id, domain, nf, verified, applied) =>
        var a := LoadLive(s, now, id).value;
        assert AttemptOk(e, s, id, a);
        EvidenceTouches(e, s, now, s.config.value, WithProof(a, domain, nf), domain, applied);
      case OwnerCancelCall(now, id) =>
        var a := LoadLive(s, now, id).value;
        assert AttemptOk(e, s, id, a);
        CancelTouches(e, s, now, s.config.value, a, false);
      case SyncCall(now, change) => SyncTouches(e, s, now, change);
      case _ =>
    }
  }

  lemma {:induction false} RunTouchesLive(e: Setting, s: Store, calls: seq<Call>)
    requires Sound(e, s)
    ensures Sound(e, After(e, s, calls)) && TouchesLive(s, After(e, s, calls))
  {
    hide Sound, Next, TouchesLive;
    if calls == [] {
      TouchesNothing(s);
    } else {
      var mid := After(e, s, calls[..|calls|-1]);
      RunTouchesLive(e, s, calls[..|calls|-1]);
      NextSound(e, mid, calls[|calls|-1]);
      NextTouchesLive(e, mid, calls[|calls|-1]);
      TouchesCompose(s, mid, Next(e, mid, calls[|calls|-1]));
    }
  }

  lemma TouchesNothing(s: Store)
    ensures TouchesLive(s, s)
  {
  }

  lemma TouchesCompose(s: Store, m: Store, n: Store)
    requires TouchesLive(s, m) && TouchesLive(m, n)
    ensures TouchesLive(s, n)
  {
  }

  /** An attempt that is over stays exactly as it is, whatever is called afterwards, and is
      never live again. */
  lemma ClosedForever(e: Setting, s: Store, calls: seq<Call>, id: nat, now: u32)
    requires Sound(e, s) && id in s.attempts && Closed(s, s.attempts[id])
    ensures var n := After(e, s, calls);
            id in n.attempts && n.attempts[id] == s.attempts[id] && Closed(n, n.attempts[id]) &&
              !Live(n, now, n.attempts[id])
  {
    hide After, Sound;
    RunTouchesLive(e, s, calls);
  }

  /** Authorizing an attempt closes every other one. */
  lemma AuthorizationCloses(e: Setting, s: Store, call: Call, other: nat)
    requires Sound(e, s) && Next(e, s, call).authorized.Some? && Next(e, s, call).authorized != s.authorized
    requires other in Next(e, s, call).attempts && other != Next(e, s, call).authorized.value
    ensures Closed(Next(e, s, call), Next(e, s, call).attempts[other])
  {
    hide ReplacedLeave, NoDuplicates, ByConfig, Begin, RcvSync, Live, AuthorizedLive, MarkerOk;
    NextSound(e, s, call);
    match call {
      case BeginCall(now, action, req) => BeginKeepsAuthorized(s, e.fps, now, action, req);
      case SyncCall(now, change) => SyncAuthorizesNone(s, e.account, e.here, now, change);
      case _ =>
    }
    assert AttemptOk(e, Next(e, s, call), other, Next(e, s, call).attempts[other]);
  }

  lemma BeginKeepsAuthorized(s: Store, fps: Fingerprints, now: u32, action: RecoveryAction, req: Request)
    ensures Begin(s, fps, now, action, req).Ok? ==> Begin(s, fps, now, action, req).value.authorized == s.authorized
  {
    hide ReplacedLeave, NoneIn, AuthorizedLive;
  }

  lemma SyncAuthorizesNone(s: Store, account: string, here: string, now: u32, ch: Change)
    ensures RcvSync(s, account, here, now, ch).Ok? ==>
              RcvSync(s, account, here, now, ch).value.store.authorized in {s.authorized, None}
  {
    hide Servable, AuthorizedLive;
  }

  // ----- at most once -----

  /** Call `k` of a run completes an attempt. */
  ghost predicate CompletesAt(e: Setting, s: Store, calls: seq<Call>, k: nat) {
    && k < |calls| && calls[k].SyncCall?
    && var r := RcvSync(After(e, s, calls[..k]), e.account, e.here, calls[k].now, calls[k].change);
       r.Ok? && r.value.outcome.Completed?
  }

  /** The attempt it completes. */
  ghost function CompletedBy(e: Setting, s: Store, calls: seq<Call>, k: nat): (a: Attempt)
    requires Sound(e, s) && CompletesAt(e, s, calls, k)
  {
    RunTouchesLive(e, s, calls[..k]);
    CompletionRecorded(e, After(e, s, calls[..k]), calls[k].now, calls[k].change);
    AuthorizedLive(After(e, s, calls[..k]), calls[k].now).value
  }

  lemma {:induction false} AfterSplit(e: Setting, s: Store, a: seq<Call>, b: seq<Call>)
    ensures After(e, s, a + b) == After(e, After(e, s, a), b)
  {
    hide Next;
    if b == [] {
      assert a + b == a;
    } else {
      AfterSplit(e, s, a, b[..|b|-1]);
      assert (a + b)[..|a + b|-1] == a + b[..|b|-1];
    }
  }

  lemma AfterStep(e: Setting, s: Store, calls: seq<Call>, k: nat)
    requires k < |calls|
    ensures After(e, s, calls[..k+1]) == Next(e, After(e, s, calls[..k]), calls[k])
  {
    hide Next;
    assert calls[..k+1][..k] == calls[..k];
  }

  /** Over any run, two completions are of different attempts and spend different
      nullifiers. */
  lemma CompletesOnce(e: Setting, s: Store, calls: seq<Call>, j: nat, k: nat)
    requires Sound(e, s) && j < k && CompletesAt(e, s, calls, j) && CompletesAt(e, s, calls, k)
    ensures var a, b := CompletedBy(e, s, calls, j), CompletedBy(e, s, calls, k);
            a.id != b.id && (a.nullifier.Some? && b.nullifier.Some? ==> a.nullifier != b.nullifier)
  {
    hide Sound, After, Next, RcvSync, TouchesLive, EvidenceComplete;
    var before, next, late := After(e, s, calls[..j]), After(e, s, calls[..j+1]), After(e, s, calls[..k]);
    RunTouchesLive(e, s, calls[..j]);
    CompletionRecorded(e, before, calls[j].now, calls[j].change);
    AfterStep(e, s, calls, j);
    SyncStores(e, before, calls[j]);
    NextSound(e, before, calls[j]);
    assert calls[..k] == calls[..j+1] + calls[j+1..k];
    AfterSplit(e, s, calls[..j+1], calls[j+1..k]);
    RunTouchesLive(e, next, calls[j+1..k]);
    CompletionRecorded(e, late, calls[k].now, calls[k].change);
    var a, b := CompletedBy(e, s, calls, j), CompletedBy(e, s, calls, k);
    ClosedForever(e, next, calls[j+1..k], a.id, calls[k].now);
    SpentGrows(next, late);
    AuthorizedIsLive(late, calls[k].now);
  }

  lemma SyncStores(e: Setting, s: Store, call: Call)
    requires call.SyncCall? && RcvSync(s, e.account, e.here, call.now, call.change).Ok?
    ensures Next(e, s, call) == RcvSync(s, e.account, e.here, call.now, call.change).value.store
  {
    hide RcvSync;
  }

  lemma SpentGrows(s: Store, n: Store)
    requires TouchesLive(s, n)
    ensures s.spent <= n.spent
  {
  }

  lemma AuthorizedIsLive(s: Store, now: u32)
    requires AuthorizedLive(s, now).Some?
    ensures Live(s, now, AuthorizedLive(s, now).value)
  {
  }
}
