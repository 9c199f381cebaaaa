/** Where the evidence for a recovery comes from (crates/perch-recovery/src/contract.rs): what
    a controller has recorded, someone approved or proved, for this very attempt and in time. */
module Evidence {
  import opened Base
  import opened Field
  import opened Doc
  import opened Revocation
  import opened Controller

  // ----- one call -----

  /** The statement evidence is about: nothing in it changes while an attempt exists. */
  predicate SameSubject(a: Attempt, b: Attempt) {
    && a.id == b.id && a.action == b.action && a.epoch == b.epoch
    && a.evidenceDeadline == b.evidenceDeadline && a.cancelUntil == b.cancelUntil
    && a.source == b.source && a.target == b.target && a.targetConfig == b.targetConfig && a.replaced == b.replaced
  }

  predicate SameEvidence(a: Attempt, b: Attempt) {
    && a.guardians == b.guardians && a.nullifier == b.nullifier
    && a.cancelGuardians == b.cancelGuardians && a.cancelZk == b.cancelZk
  }

  /** A signed approval by the guardian. */
  predicate Approves(call: Call, id: nat, domain: Domain, g: string) {
    call.GuardianCall? && call.id == id && call.domain == domain && call.guardian == g && call.signed
  }

  /** A verified proof. */
  predicate Proves(call: Call, id: nat, domain: Domain, nullifier: Bytes32) {
    call.ZkCall? && call.id == id && call.domain == domain && call.nullifier == nullifier && call.verified
  }

  /** The call comes in the attempt's epoch, before the statement's freshness bound. */
  predicate Timely(s: Store, call: Call, a: Attempt, domain: Domain) {
    s.epoch == a.epoch && call.now <= ValidUntil(a, domain)
  }

  /** What a call can do to the evidence of an attempt. */
  ghost predicate EvidenceStep(s: Store, call: Call, was: Attempt, a: Attempt) {
    && SameSubject(was, a)
    && (a.guardians != was.guardians ==>
          exists g :: a.guardians == was.guardians + [g] && Approves(call, was.id, Initiation, g)
                      && Timely(s, call, was, Initiation))
    && (a.cancelGuardians != was.cancelGuardians ==>
          exists g :: a.cancelGuardians == was.cancelGuardians + [g] && Approves(call, was.id, Cancellation, g)
                      && Timely(s, call, was, Cancellation))
    && (a.nullifier != was.nullifier ==>
          exists nf :: a.nullifier == Some(nf) && Proves(call, was.id, Initiation, nf)
                       && Timely(s, call, was, Initiation))
    && (a.cancelZk != was.cancelZk ==>
          exists nf :: Proves(call, was.id, Cancellation, nf) && Timely(s, call, was, Cancellation))
  }

  /** Saving, promoting and cancelling leave subject and evidence alone. */
  lemma EvidenceSaved(s: Store, now: u32, config: Config, a: Attempt, domain: Domain, applied: Option<DocId>)
    requires AfterEvidence(s, now, config, a, domain, applied).Ok?
    ensures var n := AfterEvidence(s, now, config, a, domain, applied).value;
            && a.id in n.attempts && SameSubject(a, n.attempts[a.id]) && SameEvidence(a, n.attempts[a.id])
            && forall id :: id != a.id ==> (id in n.attempts <==> id in s.attempts) &&
                                           (id in s.attempts ==> n.attempts[id] == s.attempts[id])
  {
    hide AuthorizedLive, InitiationMet, CancellationMet;
  }

  lemma GuardianEvidence(e: Setting, s: Store, call: Call, id: nat)
    requires Sound(e, s) && call.GuardianCall? && Served(e, s, call).Ok? && id in s.attempts
    ensures id in Next(e, s, call).attempts && EvidenceStep(s, call, s.attempts[id], Next(e, s, call).attempts[id])
  {
    hide AfterEvidence, AttemptOk, MarkerOk;
    SoundKeyed(e, s);
    var a := LoadLive(s, call.now, call.id).value;
    var more := WithGuardian(a, call.domain, call.guardian);
    EvidenceSaved(s, call.now, s.config.value, more, call.domain, call.applied);
    if id == call.id { assert Approves(call, id, call.domain, call.guardian); }
  }

  lemma ProofEvidence(e: Setting, s: Store, call: Call, id: nat)
    requires Sound(e, s) && call.ZkCall? && Served(e, s, call).Ok? && id in s.attempts
    ensures id in Next(e, s, call).attempts && EvidenceStep(s, call, s.attempts[id], Next(e, s, call).attempts[id])
  {
    hide AfterEvidence, AttemptOk, MarkerOk;
    SoundKeyed(e, s);
    var a := LoadLive(s, call.now, call.id).value;
    var more := WithProof(a, call.domain, call.nullifier);
    EvidenceSaved(s, call.now, s.config.value, more, call.domain, call.applied);
    if id == call.id { assert Proves(call, id, call.domain, call.nullifier); }
  }

  ghost predicate Untouched(was: Attempt, s: Store, id: nat) {
    id in s.attempts && SameSubject(was, s.attempts[id]) && SameEvidence(was, s.attempts[id])
  }

  lemma SyncEvidence(e: Setting, s: Store, now: u32, ch: Change, id: nat)
    requires Sound(e, s) && id in s.attempts && RcvSync(s, e.account, e.here, now, ch).Ok?
    ensures Untouched(s.attempts[id], RcvSync(s, e.account, e.here, now, ch).value.store, id)
  {
    hide AttemptOk, MarkerOk, Servable, AuthorizedLive;
    SoundKeyed(e, s);
    if MarkerCurrent(s, now, ch.doc) { MarkerStored(e, s, now, ch.doc); }
  }

  lemma BeginEvidence(e: Setting, s: Store, now: u32, action: RecoveryAction, req: Request, id: nat)
    requires Sound(e, s) && id in s.attempts && Begin(s, e.fps, now, action, req).Ok?
    ensures Untouched(s.attempts[id], Begin(s, e.fps, now, action, req).value, id)
  {
    hide MarkerOk, ReplacedLeave, NoneIn, NoDuplicates, ByConfig, AuthorizedLive;
    assert AttemptOk(e, s, id, s.attempts[id]);
  }

  /** No other call records evidence. */
  lemma OtherEvidence(e: Setting, s: Store, call: Call, id: nat)
    requires Sound(e, s) && !call.GuardianCall? && !call.ZkCall? && id in s.attempts
    ensures Untouched(s.attempts[id], Next(e, s, call), id)
  {
    hide AttemptOk, MarkerOk, Begin, RcvSync, AuthorizedLive, Live;
    SoundKeyed(e, s);
    if Served(e, s, call).Ok? {
      match call
      case BeginCall(now, action, req) => BeginEvidence(e, s, now, action, req, id);
      case SyncCall(now, ch) => SyncEvidence(e, s, now, ch, id);
      case _ =>
    }
  }

  lemma MarkerStored(e: Setting, s: Store, now: u32, doc: DocId)
    requires Sound(e, s) && MarkerCurrent(s, now, doc)
    ensures var a := AuthorizedLive(s, now).value; a.id in s.attempts && s.attempts[a.id] == a
  {
    hide Sound, Live;
    AuthorizedStored(e, s, now);
  }

  lemma NextEvidence(e: Setting, s: Store, call: Call, id: nat)
    requires Sound(e, s) && id in s.attempts
    ensures id in Next(e, s, call).attempts && EvidenceStep(s, call, s.attempts[id], Next(e, s, call).attempts[id])
  {
    hide Sound, Served;
    if Served(e, s, call).Ok? {
      match call
      case GuardianCall(_, _, _, _, _, _) => GuardianEvidence(e, s, call, id);
      case ZkCall(_, _, _, _, _, _) => ProofEvidence(e, s, call, id);
      case _ => OtherEvidence(e, s, call, id);
    }
  }

  /** An attempt begins without evidence. */
  lemma NewAttempt(e: Setting, s: Store, call: Call, id: nat)
    requires Sound(e, s) && id !in s.attempts && id in Next(e, s, call).attempts
    ensures var a := Next(e, s, call).attempts[id];
            a.guardians == [] && a.cancelGuardians == [] && a.nullifier.None? && !a.cancelZk
  {
    hide MarkerOk, ReplacedLeave, NoneIn, NoDuplicates, ByConfig, Servable, MarkerCurrent, AuthorizedLive, Live,
      AfterEvidence, Cancel;
    SoundKeyed(e, s);
    NewAttemptBegun(e, s, call, id);
  }

  lemma NewAttemptBegun(e: Setting, s: Store, call: Call, id: nat)
    requires Sound(e, s) && id !in s.attempts && id in Next(e, s, call).attempts
    ensures call.BeginCall? && Served(e, s, call).Ok? && id == s.nextAttempt
  {
    hide MarkerOk, ReplacedLeave, NoneIn, NoDuplicates, ByConfig, Servable, AuthorizedLive, Live, AttemptOk;
    SoundKeyed(e, s);
    match call
    case GuardianCall(now, _, domain, g, _, applied) =>
      EvidenceSaved(s, now, s.config.value, WithGuardian(LoadLive(s, now, call.id).value, domain, g), domain, applied);
    case ZkCall(now, _, domain, nf, _, applied) =>
      EvidenceSaved(s, now, s.config.value, WithProof(LoadLive(s, now, call.id).value, domain, nf), domain, applied);
    case SyncCall(now, ch) => if MarkerCurrent(s, now, ch.doc) { MarkerStored(e, s, now, ch.doc); }
    case _ =>
  }

  // ----- whole runs -----

  /** The store when call `j` of a run is made. */
  ghost function Before(e: Setting, calls: seq<Call>, j: nat): Store
    requires j <= |calls|
  {
    After(e, EMPTY, calls[..j])
  }

  /** Call `j` was accepted, in time, when the attempt already stood for the same statement. */
  ghost predicate TimelyAt(e: Setting, calls: seq<Call>, j: nat, a: Attempt, domain: Domain) {
    && j < |calls| && Served(e, Before(e, calls, j), calls[j]).Ok?
    && var st := Before(e, calls, j);
       && a.id in st.attempts && SameSubject(st.attempts[a.id], a)
       && Timely(st, calls[j], a, domain)
  }

  /** The guardian approved the attempt's statement with a signed call of the run. */
  ghost predicate Approved(e: Setting, calls: seq<Call>, a: Attempt, domain: Domain, g: string) {
    exists j: nat :: j < |calls| && TimelyAt(e, calls, j, a, domain) && Approves(calls[j], a.id, domain, g)
  }

  /** A proof of the attempt's statement was verified by a call of the run. */
  ghost predicate Proved(e: Setting, calls: seq<Call>, a: Attempt, domain: Domain, nullifier: Bytes32) {
    exists j: nat :: j < |calls| && TimelyAt(e, calls, j, a, domain) && Proves(calls[j], a.id, domain, nullifier)
  }

  /** All that is recorded for the attempt was approved or proved along the run. */
  ghost predicate Witnessed(e: Setting, calls: seq<Call>, a: Attempt) {
    && (forall g :: g in a.guardians ==> Approved(e, calls, a, Initiation, g))
    && (forall g :: g in a.cancelGuardians ==> Approved(e, calls, a, Cancellation, g))
    && (a.nullifier.Some? ==> Proved(e, calls, a, Initiation, a.nullifier.value))
    && (a.cancelZk ==> exists nf :: Proved(e, calls, a, Cancellation, nf))
  }

  lemma TimelyKept(e: Setting, init: seq<Call>, call: Call, j: nat, was: Attempt, a: Attempt, domain: Domain)
    requires TimelyAt(e, init, j, was, domain) && SameSubject(was, a)
    ensures TimelyAt(e, init + [call], j, a, domain)
  {
    hide After, Served;
    assert (init + [call])[..j] == init[..j];
  }

  lemma ApprovedKept(e: Setting, init: seq<Call>, call: Call, was: Attempt, a: Attempt, domain: Domain, g: string)
    requires Approved(e, init, was, domain, g) && SameSubject(was, a)
    ensures Approved(e, init + [call], a, domain, g)
  {
    hide TimelyAt;
    var j: nat :| j < |init| && TimelyAt(e, init, j, was, domain) && Approves(init[j], was.id, domain, g);
    TimelyKept(e, init, call, j, was, a, domain);
    assert (init + [call])[j] == init[j];
  }

  lemma ProvedKept(e: Setting, init: seq<Call>, call: Call, was: Attempt, a: Attempt, domain: Domain, nf: Bytes32)
    requires Proved(e, init, was, domain, nf) && SameSubject(was, a)
    ensures Proved(e, init + [call], a, domain, nf)
  {
    hide TimelyAt;
    var j: nat :| j < |init| && TimelyAt(e, init, j, was, domain) && Proves(init[j], was.id, domain, nf);
    TimelyKept(e, init, call, j, was, a, domain);
    assert (init + [call])[j] == init[j];
  }

  /** The last call of a run is timely evidence for what it was accepted for. */
  lemma TimelyNow(e: Setting, init: seq<Call>, call: Call, was: Attempt, a: Attempt, domain: Domain)
    requires var s := After(e, EMPTY, init);
             && Served(e, s, call).Ok? && was.id in s.attempts && s.attempts[was.id] == was
             && Timely(s, call, was, domain)
    requires SameSubject(was, a)
    ensures TimelyAt(e, init + [call], |init|, a, domain) && (init + [call])[|init|] == call
  {
    hide After, Served;
    assert (init + [call])[..|init|] == init;
  }

  lemma WitnessStep(e: Setting, init: seq<Call>, call: Call, was: Attempt, a: Attempt)
    requires var s := After(e, EMPTY, init);
             was.id in s.attempts && s.attempts[was.id] == was && EvidenceStep(s, call, was, a)
    requires SameEvidence(was, a) || Served(e, After(e, EMPTY, init), call).Ok?
    requires Witnessed(e, init, was)
    ensures Witnessed(e, init + [call], a)
  {
    hide After, Served, TimelyAt, Timely, SameSubject, Approved, Proved;
    var all := init + [call];
    forall g | g in a.guardians ensures Approved(e, all, a, Initiation, g) {
      if g in was.guardians {
        ApprovedKept(e, init, call, was, a, Initiation, g);
      } else {
        ApprovedNow(e, init, call, was, a, Initiation, g);
      }
    }
    forall g | g in a.cancelGuardians ensures Approved(e, all, a, Cancellation, g) {
      if g in was.cancelGuardians {
        ApprovedKept(e, init, call, was, a, Cancellation, g);
      } else {
        ApprovedNow(e, init, call, was, a, Cancellation, g);
      }
    }
    if a.nullifier.Some? {
      var nf := a.nullifier.value;
      if a.nullifier == was.nullifier {
        ProvedKept(e, init, call, was, a, Initiation, nf);
      } else {
        ProvedNow(e, init, call, was, a, Initiation, nf);
      }
    }
    if a.cancelZk {
      if was.cancelZk {
        var nf :| Proved(e, init, was, Cancellation, nf);
        ProvedKept(e, init, call, was, a, Cancellation, nf);
      } else {
        var nf :| Proves(call, was.id, Cancellation, nf);
        ProvedNow(e, init, call, was, a, Cancellation, nf);
      }
    }
  }

  lemma ApprovedNow(e: Setting, init: seq<Call>, call: Call, was: Attempt, a: Attempt, domain: Domain, g: string)
    requires var s := After(e, EMPTY, init);
             && Served(e, s, call).Ok? && was.id in s.attempts && s.attempts[was.id] == was
             && Timely(s, call, was, domain)
    requires SameSubject(was, a) && Approves(call, was.id, domain, g)
    ensures Approved(e, init + [call], a, domain, g)
  {
    hide After, Served, Timely, TimelyAt;
    TimelyNow(e, init, call, was, a, domain);
  }

  lemma ProvedNow(e: Setting, init: seq<Call>, call: Call, was: Attempt, a: Attempt, domain: Domain, nf: Bytes32)
    requires var s := After(e, EMPTY, init);
             && Served(e, s, call).Ok? && was.id in s.attempts && s.attempts[was.id] == was
             && Timely(s, call, was, domain)
    requires SameSubject(was, a) && Proves(call, was.id, domain, nf)
    ensures Proved(e, init + [call], a, domain, nf)
  {
    hide After, Served, Timely, TimelyAt;
    TimelyNow(e, init, call, was, a, domain);
  }

  /** Along every run, every attempt's evidence is witnessed. */
  lemma {:induction false} RunWitnessed(e: Setting, calls: seq<Call>, id: nat)
    requires id in After(e, EMPTY, calls).attempts
    ensures Witnessed(e, calls, After(e, EMPTY, calls).attempts[id])
  {
    hide Witnessed, Served, EvidenceStep, Sound;
    if calls != [] {
      var init, call := calls[..|calls|-1], calls[|calls|-1];
      var s := After(e, EMPTY, init);
      RunSound(e, init);
      assert calls == init + [call];
      if id in s.attempts {
        RunWitnessed(e, init, id);
        NextEvidence(e, s, call, id);
        assert s.attempts[id].id == id by { StoredUnderId(e, s, id); }
        if Served(e, s, call).Err? { EvidenceUnchanged(s.attempts[id]); }
        WitnessStep(e, init, call, s.attempts[id], After(e, EMPTY, calls).attempts[id]);
      } else {
        NewAttempt(e, s, call, id);
        NothingToWitness(e, calls, After(e, EMPTY, calls).attempts[id]);
      }
    }
  }

  lemma StoredUnderId(e: Setting, s: Store, id: nat)
    requires Sound(e, s) && id in s.attempts
    ensures s.attempts[id].id == id
  {
  }

  lemma EvidenceUnchanged(a: Attempt)
    ensures SameEvidence(a, a)
  {
  }

  lemma NothingToWitness(e: Setting, calls: seq<Call>, a: Attempt)
    requires a.guardians == [] && a.cancelGuardians == [] && a.nullifier.None? && !a.cancelZk
    ensures Witnessed(e, calls, a)
  {
  }

  // ----- one configuration per epoch -----

  lemma NextKeepsConfig(e: Setting, s: Store, call: Call)
    ensures s.epoch <= Next(e, s, call).epoch
    ensures Next(e, s, call).epoch == s.epoch ==> Next(e, s, call).config == s.config
  {
    hide ReplacedLeave, NoneIn, Servable, MarkerCurrent, AuthorizedLive, Live, InitiationMet, CancellationMet;
  }

  /** Within an epoch the configuration is one and the same. */
  lemma {:induction false} EpochHasOneConfig(e: Setting, calls: seq<Call>, j: nat)
    requires j <= |calls|
    ensures Before(e, calls, j).epoch <= After(e, EMPTY, calls).epoch
    ensures Before(e, calls, j).epoch == After(e, EMPTY, calls).epoch ==>
              Before(e, calls, j).config == After(e, EMPTY, calls).config
  {
    hide Next;
    if j == |calls| {
      assert calls[..j] == calls;
    } else {
      var init := calls[..|calls|-1];
      EpochHasOneConfig(e, init, j);
      assert init[..j] == calls[..j];
      NextKeepsConfig(e, After(e, EMPTY, init), calls[|calls|-1]);
    }
  }

  // ----- completions -----

  /** The guardian approved this very statement, under this configuration. */
  ghost predicate ApprovedUnder(e: Setting, calls: seq<Call>, a: Attempt, g: string, config: Config) {
    exists j: nat ::
      j < |calls| && TimelyAt(e, calls, j, a, Initiation) && Approves(calls[j], a.id, Initiation, g) &&
      Before(e, calls, j).config == Some(config)
  }

  ghost predicate ProvedUnder(e: Setting, calls: seq<Call>, a: Attempt, nullifier: Bytes32, config: Config) {
    exists j: nat ::
      j < |calls| && TimelyAt(e, calls, j, a, Initiation) && Proves(calls[j], a.id, Initiation, nullifier) &&
      Before(e, calls, j).config == Some(config)
  }

  lemma WitnessedUnder(e: Setting, calls: seq<Call>, a: Attempt, config: Config)
    requires Witnessed(e, calls, a) && a.epoch == After(e, EMPTY, calls).epoch
    requires After(e, EMPTY, calls).config == Some(config)
    ensures forall g :: g in a.guardians ==> ApprovedUnder(e, calls, a, g, config)
    ensures a.nullifier.Some? ==> ProvedUnder(e, calls, a, a.nullifier.value, config)
  {
    hide After, Served;
    forall g | g in a.guardians ensures ApprovedUnder(e, calls, a, g, config) {
      assert Approved(e, calls, a, Initiation, g);
      var j: nat :| j < |calls| && TimelyAt(e, calls, j, a, Initiation) && Approves(calls[j], a.id, Initiation, g);
      EpochHasOneConfig(e, calls, j);
    }
    if a.nullifier.Some? {
      var nf := a.nullifier.value;
      var j: nat :| j < |calls| && TimelyAt(e, calls, j, a, Initiation) && Proves(calls[j], a.id, Initiation, nf);
      EpochHasOneConfig(e, calls, j);
    }
  }

  /** Evidence is what authorizes. Along every run, an attempt completes only if as many
      distinct guardians as its configuration's quorum each signed its statement, and a proof
      of it was verified if one is asked for: under that configuration, in its epoch, by its
      deadline, at least the delay before the completion, which falls in the window. */
  lemma CompletionNeedsEvidence(e: Setting, calls: seq<Call>, k: nat)
    requires CompletesAt(e, EMPTY, calls, k) && Sound(e, EMPTY)
    ensures Before(e, calls, k).config.Some?
    ensures var a, config, history := CompletedBy(e, EMPTY, calls, k), Before(e, calls, k).config.value, calls[..k];
            && a.target == calls[k].change.doc
            && NoDuplicates(a.guardians) && AllEnrolled(config, a.guardians)
            && (config.guardians.Some? ==> |a.guardians| >= config.guardians.value.quorum)
            && (forall g :: g in a.guardians ==> ApprovedUnder(e, history, a, g, config))
            && (config.zk ==> a.nullifier.Some? && ProvedUnder(e, history, a, a.nullifier.value, config))
            && a.authorizedAt <= a.evidenceDeadline
            && a.authorizedAt + config.delay <= calls[k].now < a.authorizedAt + config.delay + config.expiry
  {
    hide After, RcvSync, Witnessed, AllEnrolled, NoDuplicates, ApprovedUnder, ProvedUnder, Sound;
    var st, history := Before(e, calls, k), calls[..k];
    RunSound(e, history);
    CompletionRecorded(e, st, calls[k].now, calls[k].change);
    var a := CompletedBy(e, EMPTY, calls, k);
    RunWitnessed(e, history, a.id);
    WitnessedUnder(e, history, a, st.config.value);
  }
}
