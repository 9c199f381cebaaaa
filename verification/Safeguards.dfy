/** What the controller's guards are for (crates/perch-recovery/src/contract.rs): who can end
    an attempt, who can change a protected configuration, and that an authorized attempt can
    always be completed in its window. */
module Safeguards {
  import opened Base
  import opened Doc
  import opened Revocation
  import opened Controller
  import opened Evidence
  import Account

  // ----- phases -----

  predicate Submits(call: Call, domain: Domain) {
    (call.GuardianCall? || call.ZkCall?) && call.domain == domain
  }

  /** Every way an attempt's phase can change. */
  predicate PhaseMove(s: Store, call: Call, was: Attempt, a: Attempt)
    requires s.config.Some?
  {
    var config := s.config.value;
    match (was.phase, a.phase)
    case (Collecting, Authorized) =>
      && Submits(call, Initiation) && InitiationMet(config, a) && AuthorizedLive(s, call.now).None?
      && (was.action == LostKey ==> call.applied == Some(was.source))
    case (Collecting, Invalidated) =>
      Submits(call, Initiation) && was.action == LostKey && call.applied != Some(was.source)
    case (Collecting, Cancelled) => CancelMove(s, call, config, a)
    case (Authorized, Cancelled) =>
      CancelMove(s, call, config, a) && (call.OwnerCancelCall? || s.cancels < config.maxCancels)
    case (Authorized, Finished) => call.SyncCall?
    case _ => false
  }

  /** The owner under `Loss`, or the cancellation condition met by evidence. */
  predicate CancelMove(s: Store, call: Call, config: Config, a: Attempt) {
    || (call.OwnerCancelCall? && call.id == a.id && config.profile == Loss)
    || (Submits(call, Cancellation) && CancellationMet(config, a))
  }

  ghost predicate Moved(s: Store, call: Call, n: Store, id: nat) {
    id in s.attempts && id in n.attempts && n.attempts[id].phase != s.attempts[id].phase
  }

  lemma EvidencePhase(s: Store, now: u32, call: Call, a: Attempt, id: nat)
    requires s.config.Some? && call.now == now && (call.GuardianCall? || call.ZkCall?) && a.id in s.attempts
    requires AfterEvidence(s, now, s.config.value, a, call.domain, call.applied).Ok?
    requires a.phase == s.attempts[a.id].phase && a.action == s.attempts[a.id].action
    requires a.source == s.attempts[a.id].source
    requires (call.domain == Initiation ==> a.phase == Collecting) && Open(a)
    requires Moved(s, call, AfterEvidence(s, now, s.config.value, a, call.domain, call.applied).value, id)
    ensures PhaseMove(s, call, s.attempts[id],
                      AfterEvidence(s, now, s.config.value, a, call.domain, call.applied).value.attempts[id])
  {
    hide AuthorizedLive;
  }

  /** An attempt's phase changes only so. */
  lemma NextPhase(e: Setting, s: Store, call: Call, id: nat)
    requires Sound(e, s) && Moved(s, call, Next(e, s, call), id)
    ensures s.config.Some? && PhaseMove(s, call, s.attempts[id], Next(e, s, call).attempts[id])
  {
    hide AttemptOk, MarkerOk, Begin, AfterEvidence, RcvSync, AuthorizedLive, PhaseMove, InitiationMet, CancellationMet;
    SoundKeyed(e, s);
    match call
    case BeginCall(now, action, req) => BeginKeepsPhase(e, s, now, action, req, id);
    case GuardianCall(now, at, domain, g, _, applied) =>
      EvidencePhase(s, now, call, WithGuardian(LoadLive(s, now, at).value, domain, g), id);
    case ZkCall(now, at, domain, nf, _, applied) =>
      EvidencePhase(s, now, call, WithProof(LoadLive(s, now, at).value, domain, nf), id);
    case OwnerCancelCall(now, at) => OwnerPhase(s, now, at, id);
    case SyncCall(now, ch) => SyncPhase(e, s, now, ch, id);
    case _ =>
  }

  lemma BeginKeepsPhase(e: Setting, s: Store, now: u32, action: RecoveryAction, req: Request, id: nat)
    requires Sound(e, s) && id in s.attempts && Begin(s, e.fps, now, action, req).Ok?
    ensures id in Begin(s, e.fps, now, action, req).value.attempts
    ensures Begin(s, e.fps, now, action, req).value.attempts[id] == s.attempts[id]
  {
    hide MarkerOk, ReplacedLeave, NoneIn, NoDuplicates, ByConfig, AuthorizedLive;
    assert AttemptOk(e, s, id, s.attempts[id]);
  }

  lemma OwnerPhase(s: Store, now: u32, at: nat, id: nat)
    requires Keyed(s) && OwnerCancel(s, now, at).Ok?
    requires Moved(s, OwnerCancelCall(now, at), OwnerCancel(s, now, at).value, id)
    ensures s.config.Some?
    ensures PhaseMove(s, OwnerCancelCall(now, at), s.attempts[id], OwnerCancel(s, now, at).value.attempts[id])
  {
    hide AuthorizedLive;
  }

  lemma SyncPhase(e: Setting, s: Store, now: u32, ch: Change, id: nat)
    requires Sound(e, s) && RcvSync(s, e.account, e.here, now, ch).Ok?
    requires Moved(s, SyncCall(now, ch), RcvSync(s, e.account, e.here, now, ch).value.store, id)
    ensures s.config.Some?
    ensures PhaseMove(s, SyncCall(now, ch), s.attempts[id],
                      RcvSync(s, e.account, e.here, now, ch).value.store.attempts[id])
  {
    hide MarkerOk, ReplacedLeave, NoDuplicates, ByConfig, Servable, Live;
    if MarkerCurrent(s, now, ch.doc) {
      AuthorizedStored(e, s, now);
      assert AttemptOk(e, s, AuthorizedLive(s, now).value.id, AuthorizedLive(s, now).value);
    }
  }

  /** While an attempt is authorized and live, no other one can be authorized. */
  lemma OneAuthorized(e: Setting, s: Store, call: Call)
    requires AuthorizedLive(s, call.now).Some?
    ensures Next(e, s, call).authorized in {s.authorized, None}
  {
    hide Begin, RcvSync, AuthorizedLive, Live, InitiationMet, CancellationMet;
    match call
    case BeginCall(now, action, req) => BeginKeepsAuthorized(s, e.fps, now, action, req);
    case SyncCall(now, change) => SyncAuthorizesNone(s, e.account, e.here, now, change);
    case _ =>
  }

  // ----- cancellations -----

  /** Along every run, an attempt is cancelled either by the owner under `Loss`, or after as
      many distinct guardians as the quorum each signed its cancellation, and a proof of it
      was verified if one is asked for. */
  lemma CancellationNeedsEvidence(e: Setting, calls: seq<Call>, k: nat, id: nat)
    requires k < |calls| && Moved(Before(e, calls, k), calls[k], Before(e, calls, k + 1), id)
    requires Before(e, calls, k + 1).attempts[id].phase == Cancelled
    ensures Before(e, calls, k).config.Some?
    ensures var config, history := Before(e, calls, k).config.value, calls[..k+1];
            var a := Before(e, calls, k + 1).attempts[id];
            || (calls[k].OwnerCancelCall? && config.profile == Loss)
            || (&& NoDuplicates(a.cancelGuardians) && AllEnrolled(config, a.cancelGuardians)
                && (config.guardians.Some? ==> |a.cancelGuardians| >= config.guardians.value.quorum)
                && (forall g :: g in a.cancelGuardians ==> Approved(e, history, a, Cancellation, g))
                && (config.zk ==> exists nf :: Proved(e, history, a, Cancellation, nf)))
  {
    hide After, Next, Approved, Proved, NoDuplicates, AllEnrolled, Sound;
    var s, n := Before(e, calls, k), Before(e, calls, k + 1);
    RunSound(e, calls[..k]);
    RunSound(e, calls[..k+1]);
    AfterStep(e, EMPTY, calls, k);
    NextPhase(e, s, calls[k], id);
    RunWitnessed(e, calls[..k+1], id);
    if !calls[k].OwnerCancelCall? {
      SubmitKeepsConfig(e, s, calls[k]);
      NextEvidence(e, s, calls[k], id);
      LiveBefore(e, s, calls[k], id);
      CancelRecorded(e, n, id);
    }
  }

  lemma SubmitKeepsConfig(e: Setting, s: Store, call: Call)
    requires call.GuardianCall? || call.ZkCall?
    ensures Next(e, s, call).config == s.config && Next(e, s, call).epoch == s.epoch
  {
    hide AuthorizedLive, Live, InitiationMet, CancellationMet;
  }

  /** Evidence moves attempts of the current epoch only. */
  lemma LiveBefore(e: Setting, s: Store, call: Call, id: nat)
    requires Sound(e, s) && (call.GuardianCall? || call.ZkCall?) && Moved(s, call, Next(e, s, call), id)
    ensures s.attempts[id].epoch == s.epoch
  {
    hide AttemptOk, MarkerOk, AfterEvidence;
    SoundKeyed(e, s);
    match call
    case GuardianCall(now, at, domain, g, _, applied) =>
      EvidenceSaved(s, now, s.config.value, WithGuardian(LoadLive(s, now, at).value, domain, g), domain, applied);
    case ZkCall(now, at, domain, nf, _, applied) =>
      EvidenceSaved(s, now, s.config.value, WithProof(LoadLive(s, now, at).value, domain, nf), domain, applied);
  }

  lemma CancelRecorded(e: Setting, s: Store, id: nat)
    requires Sound(e, s) && id in s.attempts && s.attempts[id].epoch == s.epoch
    ensures s.config.Some?
    ensures var a := s.attempts[id]; NoDuplicates(a.cancelGuardians) && AllEnrolled(s.config.value, a.cancelGuardians)
  {
    hide NoDuplicates, AllEnrolled;
    assert AttemptOk(e, s, id, s.attempts[id]);
  }

  predicate CancelsAt(s: Store, n: Store, id: nat) {
    id in s.attempts && id in n.attempts && s.attempts[id].phase == Authorized && n.attempts[id].phase == Cancelled
  }

  /** The call cancels an authorized attempt, and not by the owner. */
  ghost predicate Counts(s: Store, call: Call, n: Store) {
    && !call.OwnerCancelCall?
    && exists id: nat :: CancelsAt(s, n, id)
  }

  lemma EvidenceCounts(s: Store, now: u32, a: Attempt, domain: Domain, applied: Option<DocId>)
    requires s.config.Some? && a.id in s.attempts && a.phase == s.attempts[a.id].phase
    requires domain == Initiation ==> a.phase == Collecting
    requires AfterEvidence(s, now, s.config.value, a, domain, applied).Ok?
    ensures var n := AfterEvidence(s, now, s.config.value, a, domain, applied).value;
            var counts := n.attempts[a.id].phase == Cancelled && a.phase == Authorized;
            && n.cancels == s.cancels + (if counts then 1 else 0)
            && (counts ==> s.cancels < s.config.value.maxCancels)
            && n.attempts == s.attempts[a.id := n.attempts[a.id]]
  {
    hide AuthorizedLive, InitiationMet, CancellationMet;
  }

  /** Each counted cancellation is counted once, and only below the bound. */
  lemma NextCounts(e: Setting, s: Store, call: Call)
    requires Sound(e, s)
    ensures Next(e, s, call).cancels == s.cancels + (if Counts(s, call, Next(e, s, call)) then 1 else 0)
    ensures Counts(s, call, Next(e, s, call)) ==> s.config.Some? && s.cancels < s.config.value.maxCancels
  {
    hide AttemptOk, MarkerOk, AfterEvidence, Begin, RcvSync, AuthorizedLive, Live;
    SoundKeyed(e, s);
    if Served(e, s, call).Ok? {
      match call
      case GuardianCall(now, at, domain, g, _, applied) =>
        var a := LoadLive(s, now, at).value;
        EvidenceCounts(s, now, WithGuardian(a, domain, g), domain, applied);
        assert CancelsAt(s, Next(e, s, call), at) <==>
               Next(e, s, call).attempts[at].phase == Cancelled && a.phase == Authorized;
      case ZkCall(now, at, domain, nf, _, applied) =>
        var a := LoadLive(s, now, at).value;
        EvidenceCounts(s, now, WithProof(a, domain, nf), domain, applied);
        assert CancelsAt(s, Next(e, s, call), at) <==>
               Next(e, s, call).attempts[at].phase == Cancelled && a.phase == Authorized;
      case _ => OthersDoNotCount(e, s, call);
    }
  }

  lemma OthersDoNotCount(e: Setting, s: Store, call: Call)
    requires Sound(e, s) && !call.GuardianCall? && !call.ZkCall?
    ensures Next(e, s, call).cancels == s.cancels && !Counts(s, call, Next(e, s, call))
  {
    hide Sound, Next, PhaseMove;
    var n := Next(e, s, call);
    CancelsKept(e, s, call);
    if Counts(s, call, n) {
      var id: nat :| CancelsAt(s, n, id);
      NextPhase(e, s, call, id);
      NoCancelMove(s, call, s.attempts[id], n.attempts[id]);
    }
  }

  lemma NoCancelMove(s: Store, call: Call, was: Attempt, a: Attempt)
    requires s.config.Some? && !call.GuardianCall? && !call.ZkCall? && !call.OwnerCancelCall?
    requires was.phase == Authorized && a.phase == Cancelled
    ensures !PhaseMove(s, call, was, a)
  {
    hide AuthorizedLive;
  }

  lemma CancelsKept(e: Setting, s: Store, call: Call)
    requires !call.GuardianCall? && !call.ZkCall?
    ensures Next(e, s, call).cancels == s.cancels
  {
    hide ReplacedLeave, NoneIn, Servable, AuthorizedLive, Live;
  }

  /** How often authorized attempts were cancelled by evidence along a run. */
  ghost function EvidenceCancels(e: Setting, calls: seq<Call>): nat {
    if calls == [] then 0
    else
      var init := calls[..|calls|-1];
      EvidenceCancels(e, init) +
      if Counts(After(e, EMPTY, init), calls[|calls|-1], After(e, EMPTY, calls)) then 1 else 0
  }

  /** The lifetime bound: removing recovery, enrolling again and reconfiguring reset nothing,
      so there are never more than the largest `max-cancels` in force along the run. */
  lemma {:induction false} LifetimeCancels(e: Setting, calls: seq<Call>, m: nat)
    requires forall j :: 0 <= j <= |calls| ==>
               (Before(e, calls, j).config.Some? ==> Before(e, calls, j).config.value.maxCancels <= m)
    ensures EvidenceCancels(e, calls) == After(e, EMPTY, calls).cancels <= m
  {
    hide Next, Counts;
    if calls != [] {
      var init := calls[..|calls|-1];
      forall j | 0 <= j <= |init|
        ensures Before(e, init, j).config.Some? ==> Before(e, init, j).config.value.maxCancels <= m
      {
        assert init[..j] == calls[..j];
        assert Before(e, calls, j) == Before(e, init, j);
      }
      LifetimeCancels(e, init, m);
      RunSound(e, init);
      NextCounts(e, After(e, EMPTY, init), calls[|calls|-1]);
      assert Before(e, calls, |init|) == After(e, EMPTY, init) by { assert calls[..|init|] == init; }
    }
  }

  // ----- configurations -----

  /** Under `Protected` the configuration changes only by an approved change or by a
      completion. */
  lemma ProtectedChanges(e: Setting, s: Store, call: Call)
    requires s.config.Some? && s.config.value.profile == Protected && Next(e, s, call).config != s.config
    ensures call.SyncCall? && RcvSync(s, e.account, e.here, call.now, call.change).Ok?
    ensures call.change.approved || RcvSync(s, e.account, e.here, call.now, call.change).value.outcome.Completed?
  {
    hide ReplacedLeave, NoneIn, Servable, AuthorizedLive, Live, InitiationMet, CancellationMet;
  }

  ghost predicate Unapproved(e: Setting, s: Store, calls: seq<Call>) {
    forall k :: 0 <= k < |calls| && calls[k].SyncCall? ==>
      !calls[k].change.approved && !CompletesAt(e, s, calls, k)
  }

  /** So along every run without either, a protected configuration stays. */
  lemma {:induction false} ProtectedStays(e: Setting, s: Store, calls: seq<Call>)
    requires s.config.Some? && s.config.value.profile == Protected && Unapproved(e, s, calls)
    ensures After(e, s, calls).config == s.config
  {
    hide Next, RcvSync;
    if calls != [] {
      var init := calls[..|calls|-1];
      forall k | 0 <= k < |init| && init[k].SyncCall? ensures !init[k].change.approved && !CompletesAt(e, s, init, k) {
        assert calls[k] == init[k] && calls[..k] == init[..k];
      }
      ProtectedStays(e, s, init);
      var mid, call := After(e, s, init), calls[|calls|-1];
      assert calls[..|init|] == init;
      if Next(e, mid, call).config != mid.config { ProtectedChanges(e, mid, call); }
    }
  }

  /** What each answer to an applied document means for the configuration. */
  lemma SyncMeans(s: Store, account: string, here: string, now: u32, ch: Change)
    requires RcvSync(s, account, here, now, ch).Ok?
    ensures var r := RcvSync(s, account, here, now, ch).value;
            && (r.outcome.Unchanged? <==> r.store.epoch == s.epoch)
            && (r.outcome.Unchanged? ==> r.store.config == s.config)
            && (r.outcome.Removed? <==> s.config.Some? && r.store.config.None?)
            && (r.outcome.Enrolled? ==> s.config.None?)
            && (r.outcome.Enrolled? || r.outcome.Reconfigured? ==>
                  && r.store.config.Some? && Servable(account, r.store.config.value)
                  && r.store.config.value.controller == here && ch.factorOk && ch.wired)
            && r.store.marker.None?
  {
    hide Servable, AuthorizedLive;
  }

  // ----- beginning and completing -----

  /** When an attempt can be opened, and what it is. */
  lemma BeginIff(s: Store, fps: Fingerprints, now: u32, action: RecoveryAction, req: Request)
    ensures Begin(s, fps, now, action, req).Ok? <==>
            && s.config.Some? && AuthorizedLive(s, now).None?
            && req.canonical && s.config.value.zk == (req.enrollments == 1)
            && req.applied.Some? && (action == Compromise ==> s.config.value.baseline.Some? && req.published)
            && req.derived.Some? && req.derived.value.replaced.Some?
            && !(req.enrollments > 0 && req.enrolledBefore)
            && NoneIn(fps(req.derived.value.target), req.revoked)
            && ReplacedLeave(req.derived.value.replaced.value, fps(req.derived.value.target))
            && now + 2 * s.config.value.expiry + s.config.value.delay <= U32_MAX
    ensures Begin(s, fps, now, action, req).Ok? ==>
              var n := Begin(s, fps, now, action, req).value;
              && s.nextAttempt in n.attempts && n.nextAttempt == s.nextAttempt + 1
              && var a := n.attempts[s.nextAttempt];
                 && a.phase == Collecting && a.target == req.derived.value.target && a.epoch == s.epoch
                 && Some(a.source) == if action == LostKey then req.applied else s.config.value.baseline
  {
    hide AuthorizedLive, NoneIn, ReplacedLeave;
  }

  /** The completing call and the account's answer to it, one after the other. */
  function EnforceThenSync(s: Store, account: string, here: string, now: u32, ch: Change): Result<Synced, Refusal> {
    var marked :- Enforce(s, now, Some(ch.doc));
    RcvSync(marked, account, here, now, ch)
  }

  /** In every reachable store, an authorized attempt can be completed exactly inside its
      window, with its own target and the configuration it names. No spent nullifier stands in
      the way. */
  lemma CompletableIff(e: Setting, s: Store, now: u32, ch: Change)
    requires Sound(e, s)
    ensures EnforceThenSync(s, e.account, e.here, now, ch).Ok? <==>
            && AuthorizedLive(s, now).Some?
            && var a := AuthorizedLive(s, now).value;
               && a.executableAfter <= now && a.target == ch.doc
               && ch.config.Some? && ch.config.value.controller == e.here && ch.config.value.hash == a.targetConfig
    ensures EnforceThenSync(s, e.account, e.here, now, ch).Ok? ==>
              EnforceThenSync(s, e.account, e.here, now, ch).value.outcome ==
              Account.Completed(Some(AuthorizedLive(s, now).value.replaced))
    ensures EnforceThenSync(s, e.account, e.here, now, ch) != Err(NullifierSpent)
  {
    hide ReplacedLeave, NoDuplicates, AllEnrolled, Servable, MarkerOk;
    if AuthorizedLive(s, now).Some? {
      AuthorizedStored(e, s, now);
      assert AttemptOk(e, s, AuthorizedLive(s, now).value.id, AuthorizedLive(s, now).value);
    }
  }

  // ----- upgrades -----

  /** An upgrade goes through exactly when it was recorded in the epoch it runs in and no
      attempt stands in its window. It ends every attempt, and a request of that epoch or an
      earlier one is refused from then on, whatever is called in between. */
  lemma UpgradeEnds(e: Setting, s: Store, now: u32, recorded: nat, calls: seq<Call>, later: u32, other: nat)
    requires Sound(e, s)
    ensures UpgradeExecuted(s, now, recorded).Ok? <==> s.config.Some? && !InWindow(s, now) && recorded == s.epoch
    ensures UpgradeExecuted(s, now, recorded).Ok? ==>
              var n := UpgradeExecuted(s, now, recorded).value;
              && n.config == s.config && n.attempts == s.attempts && n.spent == s.spent && n.cancels == s.cancels
              && (forall id :: id in n.attempts ==> Closed(n, n.attempts[id]))
              && (other <= recorded ==> UpgradeExecuted(After(e, n, calls), later, other).Err?)
  {
    hide ByConfig, NoDuplicates, ReplacedLeave, MarkerOk, AuthorizedLive, After;
    if UpgradeExecuted(s, now, recorded).Ok? {
      UpgradeSound(e, s, now, recorded);
      RunTouchesLive(e, UpgradeExecuted(s, now, recorded).value, calls);
      forall id | id in s.attempts ensures s.attempts[id].epoch <= s.epoch {
        assert AttemptOk(e, s, id, s.attempts[id]);
      }
    }
  }

  // ----- the authorized attempt from call to call -----

  /** The same authorized attempt: only cancellation evidence may have come. */
  ghost predicate SameWindow(a: Attempt, b: Attempt) {
    SameSubject(a, b) && a.expiresAt == b.expiresAt && a.executableAfter == b.executableAfter
  }

  /** If an attempt is authorized and live after a call, it was before, or the call authorized
      it: over the account's applied document, if a key was lost. */
  ghost predicate LiveFrom(s: Store, call: Call, n: Store) {
    InWindow(n, call.now) ==>
      var b := AuthorizedLive(n, call.now).value;
      && n.config == s.config && n.config.Some?
      && (if InWindow(s, call.now) then SameWindow(AuthorizedLive(s, call.now).value, b) && n.authorized == s.authorized
          else n.authorized != s.authorized && Submits(call, Initiation)
               && (b.action == LostKey ==> call.applied == Some(b.source)))
  }

  /** If one was, it still is, or it was finished or cancelled and nothing is authorized. */
  ghost predicate LiveTo(s: Store, call: Call, n: Store) {
    InWindow(s, call.now) ==> InWindow(n, call.now) || n.authorized.None?
  }

  predicate InWindow(s: Store, now: u32) {
    AuthorizedLive(s, now).Some?
  }

  lemma EvidenceLive(e: Setting, s: Store, call: Call, a: Attempt)
    requires Sound(e, s) && s.config.Some? && (call.GuardianCall? || call.ZkCall?)
    requires LoadLive(s, call.now, a.id).Ok?
    requires var was := LoadLive(s, call.now, a.id).value;
             && SameSubject(was, a) && a.phase == was.phase && a.expiresAt == was.expiresAt
             && a.executableAfter == was.executableAfter && (call.domain == Initiation ==> a.phase == Collecting)
    requires AfterEvidence(s, call.now, s.config.value, a, call.domain, call.applied).Ok?
    ensures var n := AfterEvidence(s, call.now, s.config.value, a, call.domain, call.applied).value;
            LiveFrom(s, call, n) && LiveTo(s, call, n)
  {
    hide AttemptOk, MarkerOk, InitiationMet, CancellationMet;
  }

  lemma SyncLive(e: Setting, s: Store, now: u32, ch: Change)
    requires Sound(e, s) && RcvSync(s, e.account, e.here, now, ch).Ok?
    ensures var n := RcvSync(s, e.account, e.here, now, ch).value.store;
            LiveFrom(s, SyncCall(now, ch), n) && LiveTo(s, SyncCall(now, ch), n)
  {
    hide MarkerOk, Servable, ReplacedLeave, NoDuplicates, ByConfig;
    if s.authorized.Some? { assert AttemptOk(e, s, s.authorized.value, s.attempts[s.authorized.value]); }
  }

  lemma NextLive(e: Setting, s: Store, call: Call)
    requires Sound(e, s)
    ensures LiveFrom(s, call, Next(e, s, call)) && LiveTo(s, call, Next(e, s, call))
  {
    hide MarkerOk, ReplacedLeave, NoneIn, NoDuplicates, ByConfig, AfterEvidence, RcvSync, InitiationMet,
      CancellationMet;
    SoundKeyed(e, s);
    if s.authorized.Some? { assert AttemptOk(e, s, s.authorized.value, s.attempts[s.authorized.value]); }
    if Served(e, s, call).Ok? {
      match call
      case GuardianCall(now, id, domain, g, _, _) =>
        EvidenceLive(e, s, call, WithGuardian(LoadLive(s, now, id).value, domain, g));
      case ZkCall(now, id, domain, nf, _, _) =>
        EvidenceLive(e, s, call, WithProof(LoadLive(s, now, id).value, domain, nf));
      case SyncCall(now, ch) => SyncLive(e, s, now, ch);
      case _ =>
    }
  }

  /** A newly authorized attempt is of the current epoch, under an unchanged configuration. */
  lemma NewlyAuthorized(e: Setting, s: Store, call: Call)
    requires Sound(e, s) && Next(e, s, call).authorized.Some? && Next(e, s, call).authorized != s.authorized
    ensures var n := Next(e, s, call);
            && n.config == s.config && AuthorizedLive(s, call.now).None? && n.authorized.value in n.attempts
            && var b := n.attempts[n.authorized.value];
               b.id == n.authorized.value && b.phase == Authorized && b.epoch == n.epoch
  {
    hide AttemptOk, MarkerOk, Begin, RcvSync, AuthorizedLive, InitiationMet, CancellationMet;
    SoundKeyed(e, s);
    match call
    case BeginCall(now, action, req) => BeginKeepsAuthorized(s, e.fps, now, action, req);
    case SyncCall(now, change) => SyncAuthorizesNone(s, e.account, e.here, now, change);
    case _ =>
  }

  /** After an accepted document, the controller has a configuration exactly if the document
      names it; if an attempt was in its window, it was completed. */
  lemma SyncConfig(s: Store, account: string, here: string, now: u32, ch: Change)
    requires RcvSync(s, account, here, now, ch).Ok?
    ensures var r := RcvSync(s, account, here, now, ch).value;
            && (r.store.config.Some? <==> ch.config.Some? && ch.config.value.controller == here)
            && (InWindow(s, now) ==> r.outcome.Completed? && r.store.authorized.None?)
  {
    hide Servable, AuthorizedLive;
  }

  /** Every other call leaves the configuration alone. */
  lemma DirectKeepsConfig(e: Setting, s: Store, call: Call)
    requires !call.SyncCall?
    ensures Next(e, s, call).config == s.config
  {
    hide ReplacedLeave, NoneIn, AuthorizedLive, Live, InitiationMet, CancellationMet;
  }

  /** A window belongs to an enrolled account. */
  lemma WindowHasConfig(e: Setting, s: Store, now: u32)
    requires Sound(e, s) && InWindow(s, now)
    ensures s.config.Some? && s.authorized == Some(AuthorizedLive(s, now).value.id)
    ensures now < AuthorizedLive(s, now).value.expiresAt
  {
    hide MarkerOk, ReplacedLeave, NoDuplicates, ByConfig;
    AuthorizedStored(e, s, now);
    assert AttemptOk(e, s, s.authorized.value, s.attempts[s.authorized.value]);
  }
}
