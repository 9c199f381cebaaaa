/** That recovery succeeds (crates/perch-recovery/src/contract.rs): evidence that reaches the
    quorum authorizes or cancels at once, so no attempt is ever stuck with enough of it, and
    an attempt with enough evidence in time can be completed throughout its window. */
module Recoverable {
  import opened Base
  import opened Field
  import opened Doc
  import opened Revocation
  import opened Controller
  import opened Evidence
  import opened Safeguards
  import Account

  // ----- what is asked for -----

  /** As many different guardians as the quorum, and a proof, each if the configuration has
      that factor. */
  predicate Enough(config: Config, approvers: set<string>, proved: bool) {
    && (config.guardians.None? || |approvers| >= config.guardians.value.quorum)
    && (!config.zk || proved)
  }

  lemma {:induction false} DistinctCount(gs: seq<string>)
    requires NoDuplicates(gs)
    ensures |Elements(gs)| == |gs|
  {
    if gs != [] {
      var init, last := gs[..|gs|-1], gs[|gs|-1];
      DistinctCount(init);
      assert gs == init + [last];
      assert Elements(gs) == Elements(init) + {last};
      assert last !in init;
    }
  }

  lemma OneMore(gs: seq<string>, g: string)
    requires NoDuplicates(gs) && g !in gs
    ensures Elements(gs + [g]) == Elements(gs) + {g} && NoDuplicates(gs + [g])
  {
  }

  /** The conditions the contract tests, in terms of what is asked for. */
  lemma MetIsEnough(config: Config, a: Attempt)
    requires NoDuplicates(a.guardians) && NoDuplicates(a.cancelGuardians)
    ensures InitiationMet(config, a) <==> Enough(config, Elements(a.guardians), a.nullifier.Some?)
    ensures CancellationMet(config, a) <==> Enough(config, Elements(a.cancelGuardians), a.cancelZk)
  {
    hide NoDuplicates;
    DistinctCount(a.guardians);
    DistinctCount(a.cancelGuardians);
  }

  // ----- configurations that can be served -----

  /** The guardians of a configuration can reach its quorum between them. */
  ghost predicate QuorumReachable(g: GuardianSet) {
    exists approvers: set<string> :: approvers <= Elements(g.guardians) && |approvers| >= g.quorum
  }

  lemma ReachableIff(g: GuardianSet)
    ensures QuorumReachable(g) <==> g.quorum <= |Elements(g.guardians)|
  {
    if g.quorum <= |Elements(g.guardians)| { assert Elements(g.guardians) <= Elements(g.guardians); }
    forall approvers: set<string> | approvers <= Elements(g.guardians)
      ensures |approvers| <= |Elements(g.guardians)|
    {
      SubsetCount(approvers, Elements(g.guardians));
    }
  }

  lemma {:induction false} SubsetCount(a: set<string>, b: set<string>)
    requires a <= b
    ensures |a| <= |b|
  {
    if x :| x in a { SubsetCount(a - {x}, b - {x}); }
  }

  /** A ledger of the completion window of an attempt authorized at `at`. */
  predicate InCompletion(config: Config, at: nat, now: nat) {
    at + config.delay <= now < at + config.delay + config.expiry
  }

  /** There is a window, and it does not contain its own authorization. */
  ghost predicate OpensLater(config: Config, at: nat) {
    (exists now: nat :: InCompletion(config, at, now)) && !InCompletion(config, at, at)
  }

  lemma OpensLaterIff(config: Config, at: nat)
    ensures OpensLater(config, at) <==> config.delay != 0 && config.expiry != 0
  {
    if config.expiry != 0 { assert InCompletion(config, at, at + config.delay); }
  }

  /** What a controller accepts, if no guardian is listed twice: every completion window is
      there and comes after its authorization, some cancellation counts, and the guardians,
      the account not among them, can reach a quorum that takes at least one of them. */
  lemma ServableIff(account: string, config: Config)
    requires config.guardians.Some? ==> NoDuplicates(config.guardians.value.guardians)
    ensures Servable(account, config) <==>
            && (forall at: nat :: OpensLater(config, at))
            && 1 <= config.maxCancels
            && (config.guardians.Some? ==>
                  && QuorumReachable(config.guardians.value) && account !in Elements(config.guardians.value.guardians)
                  && !Enough(config.(zk := false), {}, false))
  {
    hide NoDuplicates, OpensLater;
    if config.guardians.Some? {
      ReachableIff(config.guardians.value);
      DistinctCount(config.guardians.value.guardians);
    }
    forall at: nat ensures OpensLater(config, at) <==> config.delay != 0 && config.expiry != 0 {
      OpensLaterIff(config, at);
    }
    assert OpensLater(config, 0) <==> config.delay != 0 && config.expiry != 0;
  }

  /** The controller counts list entries: with a guardian listed twice it serves a
      configuration whose quorum nobody can reach. Documents are validated to list each
      guardian once. */
  lemma RepeatedGuardian(account: string, config: Config, g: string)
    requires g != account && config.guardians == Some(GuardianSet([g, g], 2))
    requires config.delay != 0 && config.expiry != 0 && config.maxCancels != 0
    ensures Servable(account, config) && !QuorumReachable(config.guardians.value)
  {
    ReachableIff(config.guardians.value);
    assert Elements([g, g]) == {g};
  }

  // ----- one piece of evidence -----

  /** Nothing but the attempt's phase and its windows differ from the one with the evidence,
      and no other attempt changed. */
  ghost predicate Recorded(s: Store, a: Attempt, n: Store) {
    && a.id in n.attempts && SameSubject(a, n.attempts[a.id]) && SameEvidence(a, n.attempts[a.id])
    && n.attempts == s.attempts[a.id := n.attempts[a.id]]
    && n.config == s.config && n.epoch == s.epoch && n.spent == s.spent && n.nextAttempt == s.nextAttempt
    && n.marker == s.marker
  }

  /** What counting the evidence in `a` comes to: enough of it authorizes, and opens the window,
      except that a lost-key attempt over a document no longer applied is over. */
  ghost predicate Initiated(s: Store, now: u32, a: Attempt, applied: Option<DocId>, n: Store)
    requires s.config.Some?
  {
    var config := s.config.value;
    && Recorded(s, a, n) && n.cancels == s.cancels
    && var b := n.attempts[a.id];
       if !Enough(config, Elements(a.guardians), a.nullifier.Some?) then
         b == a && n.authorized == s.authorized && n.invalidateBelow == s.invalidateBelow
       else if a.action == LostKey && applied != Some(a.source) then
         b.phase == Invalidated && n.authorized == s.authorized && n.invalidateBelow == s.invalidateBelow
       else
         && b.phase == Authorized && n.authorized == Some(a.id) && n.invalidateBelow == s.nextAttempt
         && b.authorizedAt == now && b.executableAfter == now + config.delay
         && b.expiresAt == now + config.delay + config.expiry
  }

  /** Enough evidence against an attempt ends it. */
  ghost predicate Opposed(s: Store, a: Attempt, n: Store)
    requires s.config.Some?
  {
    && Recorded(s, a, n) && n.invalidateBelow == s.invalidateBelow
    && var b := n.attempts[a.id];
       if !Enough(s.config.value, Elements(a.cancelGuardians), a.cancelZk) then
         b == a && n.authorized == s.authorized && n.cancels == s.cancels
       else
         && b.phase == Cancelled
         && n.authorized == (if a.phase == Authorized then None else s.authorized)
         && n.cancels == s.cancels + (if a.phase == Authorized then 1 else 0)
  }

  /** The attempt can still take evidence of the domain. */
  predicate Takes(s: Store, now: u32, id: nat, domain: Domain) {
    && s.config.Some? && id in s.attempts && Live(s, now, s.attempts[id])
    && (domain == Initiation ==> s.attempts[id].phase == Collecting)
  }

  /** Counting this evidence would be refused as a whole: another attempt is authorized, or
      the lifetime bound on cancellations is reached. */
  ghost predicate Barred(s: Store, now: u32, a: Attempt, domain: Domain)
    requires s.config.Some?
  {
    match domain
    case Initiation =>
      Enough(s.config.value, Elements(a.guardians), a.nullifier.Some?) && AuthorizedLive(s, now).Some?
    case Cancellation =>
      && Enough(s.config.value, Elements(a.cancelGuardians), a.cancelZk)
      && a.phase == Authorized && s.cancels >= s.config.value.maxCancels
  }

  ghost predicate Effect(s: Store, now: u32, a: Attempt, domain: Domain, applied: Option<DocId>, n: Store)
    requires s.config.Some?
  {
    match domain case Initiation => Initiated(s, now, a, applied, n) case Cancellation => Opposed(s, a, n)
  }

  lemma CountedIff(e: Setting, s: Store, now: u32, a: Attempt, domain: Domain, applied: Option<DocId>)
    requires Sound(e, s) && Takes(s, now, a.id, domain)
    requires SameSubject(s.attempts[a.id], a) && a.phase == s.attempts[a.id].phase
    requires NoDuplicates(a.guardians) && NoDuplicates(a.cancelGuardians)
    ensures var r := AfterEvidence(s, now, s.config.value, a, domain, applied);
            && (r.Ok? <==> !Barred(s, now, a, domain))
            && (r.Ok? ==> Effect(s, now, a, domain, applied, r.value))
  {
    hide NoDuplicates, ReplacedLeave, AllEnrolled, MarkerOk, InitiationMet, CancellationMet, Enough, AuthorizedLive;
    MetIsEnough(s.config.value, a);
    assert AttemptOk(e, s, a.id, s.attempts[a.id]);
  }

  /** A guardian's approval, for or against an attempt, counts exactly when the guardian is
      enrolled, new and signed and the attempt can take it; what it comes to is decided by the
      set of guardians that approved so far and this one. */
  lemma ApprovalIff(e: Setting, s: Store, now: u32, id: nat, domain: Domain, g: string, signed: bool,
                    applied: Option<DocId>)
    requires Sound(e, s)
    ensures var r := SubmitGuardian(s, now, id, domain, g, signed, applied);
            && (r.Ok? <==>
                  && Takes(s, now, id, domain) && IsGuardian(s.config.value, g) && signed
                  && g !in (if domain == Initiation then s.attempts[id].guardians else s.attempts[id].cancelGuardians)
                  && !Barred(s, now, WithGuardian(s.attempts[id], domain, g), domain))
            && (r.Ok? ==> Effect(s, now, WithGuardian(s.attempts[id], domain, g), domain, applied, r.value))
  {
    hide NoDuplicates, ReplacedLeave, MarkerOk, InitiationMet, CancellationMet, Enough, AuthorizedLive, AfterEvidence,
      Barred, Effect;
    if Takes(s, now, id, domain) {
      var a := s.attempts[id];
      assert AttemptOk(e, s, id, a);
      var counted := if domain == Initiation then a.guardians else a.cancelGuardians;
      if g !in counted {
        OneMore(counted, g);
        CountedIff(e, s, now, WithGuardian(a, domain, g), domain, applied);
      }
    }
  }

  /** A proof counts exactly when it is the first, verified and unspent and the attempt can
      take it. */
  lemma ProofIff(e: Setting, s: Store, now: u32, id: nat, domain: Domain, nf: Bytes32, verified: bool,
                 applied: Option<DocId>)
    requires Sound(e, s)
    ensures var r := SubmitZk(s, now, id, domain, nf, verified, applied);
            && (r.Ok? <==>
                  && Takes(s, now, id, domain) && s.config.value.zk && verified && nf !in s.spent
                  && (if domain == Initiation then s.attempts[id].nullifier.None? else !s.attempts[id].cancelZk)
                  && !Barred(s, now, WithProof(s.attempts[id], domain, nf), domain))
            && (r.Ok? ==> Effect(s, now, WithProof(s.attempts[id], domain, nf), domain, applied, r.value))
  {
    hide NoDuplicates, ReplacedLeave, MarkerOk, InitiationMet, CancellationMet, Enough, AuthorizedLive, AfterEvidence,
      Barred, Effect;
    if Takes(s, now, id, domain) {
      assert AttemptOk(e, s, id, s.attempts[id]);
      CountedIff(e, s, now, WithProof(s.attempts[id], domain, nf), domain, applied);
    }
  }

  // ----- no attempt is stuck -----

  /** A collecting attempt of the current epoch lacks evidence, and no open attempt has enough
      against it. */
  ghost predicate Unstuck(config: Config, a: Attempt) {
    !Enough(config, {}, false) ==>
    && (a.phase == Collecting ==> !Enough(config, Elements(a.guardians), a.nullifier.Some?))
    && (Open(a) ==> !Enough(config, Elements(a.cancelGuardians), a.cancelZk))
  }

  ghost predicate NoneStuck(s: Store) {
    forall id :: id in s.attempts && s.attempts[id].epoch == s.epoch ==>
      s.config.Some? && Unstuck(s.config.value, s.attempts[id])
  }

  lemma EvidenceUnstuck(e: Setting, s: Store, now: u32, a: Attempt, domain: Domain, applied: Option<DocId>, n: Store)
    requires NoneStuck(s) && Takes(s, now, a.id, domain) && Effect(s, now, a, domain, applied, n)
    requires a.phase == s.attempts[a.id].phase && a.epoch == s.attempts[a.id].epoch
    requires domain == Initiation ==>
               a.cancelGuardians == s.attempts[a.id].cancelGuardians && a.cancelZk == s.attempts[a.id].cancelZk
    requires domain == Cancellation ==>
               a.guardians == s.attempts[a.id].guardians && a.nullifier == s.attempts[a.id].nullifier
    ensures NoneStuck(n)
  {
    hide Enough, AuthorizedLive;
    assert Unstuck(s.config.value, s.attempts[a.id]);
  }

  lemma SubmitUnstuck(e: Setting, s: Store, call: Call)
    requires Sound(e, s) && NoneStuck(s) && (call.GuardianCall? || call.ZkCall?) && Served(e, s, call).Ok?
    ensures NoneStuck(Next(e, s, call))
  {
    hide Sound, NoneStuck, Effect, Barred, SubmitGuardian, SubmitZk, AuthorizedLive, Live;
    StoresKeyed(e, s);
    match call
    case GuardianCall(now, id, domain, g, signed, applied) =>
      ApprovalIff(e, s, now, id, domain, g, signed, applied);
      EvidenceUnstuck(e, s, now, WithGuardian(s.attempts[id], domain, g), domain, applied, Next(e, s, call));
    case ZkCall(now, id, domain, nf, verified, applied) =>
      ProofIff(e, s, now, id, domain, nf, verified, applied);
      EvidenceUnstuck(e, s, now, WithProof(s.attempts[id], domain, nf), domain, applied, Next(e, s, call));
  }

  lemma StoresKeyed(e: Setting, s: Store)
    requires Sound(e, s)
    ensures forall id :: id in s.attempts ==> s.attempts[id].id == id
  {
    SoundKeyed(e, s);
  }

  /** No other call adds evidence, and the phases they lead to are over. */
  lemma OtherUnstuck(e: Setting, s: Store, call: Call)
    requires Sound(e, s) && NoneStuck(s) && !call.GuardianCall? && !call.ZkCall?
    ensures NoneStuck(Next(e, s, call))
  {
    hide Sound, Next, Enough, PhaseMove;
    var n := Next(e, s, call);
    NextSound(e, s, call);
    NextKeepsConfig(e, s, call);
    forall id | id in n.attempts && n.attempts[id].epoch == n.epoch
      ensures n.config.Some? && Unstuck(n.config.value, n.attempts[id])
    {
      InEpoch(e, n, id);
      if id in s.attempts {
        OtherEvidence(e, s, call, id);
        InEpochBefore(e, s, id);
        if Moved(s, call, n, id) {
          NextPhase(e, s, call, id);
          OtherMoves(s, call, s.attempts[id], n.attempts[id]);
        }
      } else {
        NewAttempt(e, s, call, id);
        assert Elements(n.attempts[id].guardians) == {} && Elements(n.attempts[id].cancelGuardians) == {};
      }
    }
  }

  lemma InEpoch(e: Setting, s: Store, id: nat)
    requires Sound(e, s) && id in s.attempts && s.attempts[id].epoch == s.epoch
    ensures s.config.Some?
  {
    assert AttemptOk(e, s, id, s.attempts[id]);
  }

  lemma InEpochBefore(e: Setting, s: Store, id: nat)
    requires Sound(e, s) && id in s.attempts
    ensures s.attempts[id].epoch <= s.epoch
  {
    assert AttemptOk(e, s, id, s.attempts[id]);
  }

  lemma OtherMoves(s: Store, call: Call, was: Attempt, a: Attempt)
    requires s.config.Some? && PhaseMove(s, call, was, a) && !call.GuardianCall? && !call.ZkCall?
    ensures !Open(a)
  {
    hide AuthorizedLive, InitiationMet, CancellationMet;
  }

  /** In every reachable store no attempt waits with enough evidence: what reaches the quorum
      is acted on by the call that reaches it. */
  lemma {:induction false} NeverStuck(e: Setting, calls: seq<Call>)
    ensures NoneStuck(After(e, EMPTY, calls))
  {
    hide Next, NoneStuck, Sound, Served;
    if calls == [] {
      NothingStuck();
    } else {
      var s, call := After(e, EMPTY, calls[..|calls|-1]), calls[|calls|-1];
      NeverStuck(e, calls[..|calls|-1]);
      RunSound(e, calls[..|calls|-1]);
      if (call.GuardianCall? || call.ZkCall?) && Served(e, s, call).Ok? {
        SubmitUnstuck(e, s, call);
      } else if call.GuardianCall? || call.ZkCall? {
        RefusedKeeps(e, s, call);
      } else {
        OtherUnstuck(e, s, call);
      }
    }
  }

  lemma NothingStuck()
    ensures NoneStuck(EMPTY)
  {
  }

  lemma RefusedKeeps(e: Setting, s: Store, call: Call)
    requires Served(e, s, call).Err?
    ensures Next(e, s, call) == s
  {
    hide Served;
  }

  // ----- from the first approval to the completion -----

  /** Evidence for the attempt that nothing is wrong with. */
  predicate Supports(s: Store, a: Attempt, call: Call)
    requires s.config.Some?
  {
    && Submits(call, Initiation) && call.id == a.id && call.now <= a.evidenceDeadline
    && AuthorizedLive(s, call.now).None?
    && (a.action == LostKey ==> call.applied == Some(a.source))
    && (call.GuardianCall? ==> call.signed && IsGuardian(s.config.value, call.guardian))
    && (call.ZkCall? ==> s.config.value.zk && call.verified && call.nullifier !in s.spent)
  }

  ghost predicate AllSupport(s: Store, a: Attempt, calls: seq<Call>)
    requires s.config.Some?
  {
    forall k :: 0 <= k < |calls| ==> Supports(s, a, calls[k])
  }

  function Approvers(calls: seq<Call>): set<string> {
    set c | c in calls && c.GuardianCall? :: c.guardian
  }

  predicate HasProof(calls: seq<Call>) {
    exists k :: 0 <= k < |calls| && calls[k].ZkCall?
  }

  /** The attempt can take evidence, its deadline apart. */
  predicate Pending(s: Store, id: nat) {
    && s.config.Some? && id in s.attempts && s.attempts[id].epoch == s.epoch
    && s.attempts[id].phase == Collecting && id >= s.invalidateBelow
  }

  /** The evidence the attempt has together with that of the calls is enough. */
  ghost predicate EnoughWith(s: Store, id: nat, calls: seq<Call>)
    requires Pending(s, id)
  {
    var a := s.attempts[id];
    Enough(s.config.value, Elements(a.guardians) + Approvers(calls), a.nullifier.Some? || HasProof(calls))
  }

  /** Call `k` is the one that brings enough. */
  ghost predicate Reaches(s: Store, id: nat, calls: seq<Call>, k: nat)
    requires Pending(s, id)
  {
    k < |calls| && !EnoughWith(s, id, calls[..k]) && EnoughWith(s, id, calls[..k+1])
  }

  /** All the evidence is in, and there is not enough of it. */
  ghost predicate Waiting(s: Store, id: nat, calls: seq<Call>, n: Store)
    requires Pending(s, id)
  {
    && id in n.attempts && n == s.(attempts := s.attempts[id := n.attempts[id]])
    && var a, b := s.attempts[id], n.attempts[id];
       && b.phase == Collecting && SameSubject(a, b)
       && Elements(b.guardians) == Elements(a.guardians) + Approvers(calls)
       && (b.nullifier.Some? <==> a.nullifier.Some? || HasProof(calls))
       && !Enough(s.config.value, Elements(b.guardians), b.nullifier.Some?)
  }

  /** One of the calls authorized the attempt and opened its window. */
  ghost predicate Granted(s: Store, id: nat, calls: seq<Call>, n: Store)
    requires Pending(s, id)
  {
    && n.config == s.config && n.epoch == s.epoch && n.authorized == Some(id) && id in n.attempts
    && var b := n.attempts[id];
       && b.phase == Authorized && SameSubject(s.attempts[id], b)
       && b.executableAfter == b.authorizedAt + s.config.value.delay
       && b.expiresAt == b.executableAfter + s.config.value.expiry
       && exists k: nat :: Reaches(s, id, calls, k) && b.authorizedAt == calls[k].now
  }

  lemma ApproversGrow(init: seq<Call>, call: Call)
    ensures Approvers(init + [call]) == Approvers(init) + (if call.GuardianCall? then {call.guardian} else {})
    ensures HasProof(init + [call]) <==> HasProof(init) || call.ZkCall?
  {
    var all := init + [call];
    assert all[|init|] == call;
    assert forall k :: 0 <= k < |init| ==> all[k] == init[k];
    if call.GuardianCall? { assert call in all; }
    forall g | g in Approvers(init) ensures g in Approvers(all) {
      var c :| c in init && c.GuardianCall? && c.guardian == g;
      assert c in all;
    }
    if HasProof(init) {
      var k :| 0 <= k < |init| && init[k].ZkCall?;
      assert all[k].ZkCall?;
    }
  }

  lemma NotCollecting(e: Setting, s: Store, call: Call)
    requires Submits(call, Initiation) && call.id in s.attempts && s.attempts[call.id].phase == Authorized
    ensures Next(e, s, call) == s
  {
    hide AfterEvidence;
  }

  /** Nothing more is counted once the attempt is authorized. */
  lemma GrantedStays(e: Setting, s: Store, id: nat, init: seq<Call>, call: Call, n: Store)
    requires Pending(s, id) && Granted(s, id, init, n) && Submits(call, Initiation) && call.id == id
    ensures Next(e, n, call) == n && Granted(s, id, init + [call], n)
  {
    hide Next, EnoughWith;
    NotCollecting(e, n, call);
    var k: nat :| Reaches(s, id, init, k) && n.attempts[id].authorizedAt == init[k].now;
    var all := init + [call];
    assert all[k] == init[k] && all[..k] == init[..k] && all[..k+1] == init[..k+1];
    assert Reaches(s, id, all, k);
  }

  /** What one more piece leaves: the attempt still waiting, or authorized. */
  lemma EffectDecides(e: Setting, s: Store, id: nat, init: seq<Call>, call: Call, m: Store, a: Attempt, n: Store)
    requires Pending(s, id) && Waiting(s, id, init, m) && Supports(s, s.attempts[id], call)
    requires a.id == id && a.phase == Collecting && SameSubject(m.attempts[id], a)
    requires Elements(a.guardians) == Elements(s.attempts[id].guardians) + Approvers(init + [call])
    requires a.nullifier.Some? <==> s.attempts[id].nullifier.Some? || HasProof(init + [call])
    requires Initiated(m, call.now, a, call.applied, n)
    ensures Waiting(s, id, init + [call], n) || Granted(s, id, init + [call], n)
  {
    hide Enough, AuthorizedLive, Approvers, HasProof;
    var all := init + [call];
    assert all[|init|] == call && all[..|init|] == init && all[..|init|+1] == all;
    if n.attempts[id].phase == Authorized { assert Reaches(s, id, all, |init|); }
  }

  lemma WaitingTakes(e: Setting, s: Store, id: nat, init: seq<Call>, call: Call, m: Store)
    requires Pending(s, id) && Sound(e, m) && Waiting(s, id, init, m) && Supports(s, s.attempts[id], call)
    ensures Takes(m, call.now, id, Initiation) && AuthorizedLive(m, call.now).None?
    ensures m.attempts[id].id == id
  {
    hide AttemptOk, MarkerOk, Enough;
    SoundKeyed(e, m);
  }

  lemma ApprovalDecides(e: Setting, s: Store, id: nat, init: seq<Call>, call: Call, m: Store)
    requires Pending(s, id) && Sound(e, m) && Waiting(s, id, init, m) && Supports(s, s.attempts[id], call)
    requires call.GuardianCall?
    ensures var n := Next(e, m, call); Waiting(s, id, init + [call], n) || Granted(s, id, init + [call], n)
  {
    hide Sound, SubmitGuardian, AuthorizedLive, Live, Enough, Approvers, HasProof;
    var g := call.guardian;
    ApprovalIff(e, m, call.now, id, Initiation, g, true, call.applied);
    WaitingTakes(e, s, id, init, call, m);
    ApproversGrow(init, call);
    if g in m.attempts[id].guardians {
      assert g in Elements(m.attempts[id].guardians);
      assert Elements(m.attempts[id].guardians) == Elements(s.attempts[id].guardians) + Approvers(init + [call]);
    } else {
      var a := WithGuardian(m.attempts[id], Initiation, g);
      assert Elements(a.guardians) == Elements(m.attempts[id].guardians) + {g};
      EffectDecides(e, s, id, init, call, m, a, Next(e, m, call));
    }
  }

  lemma ProofDecides(e: Setting, s: Store, id: nat, init: seq<Call>, call: Call, m: Store)
    requires Pending(s, id) && Sound(e, m) && Waiting(s, id, init, m) && Supports(s, s.attempts[id], call)
    requires call.ZkCall?
    ensures var n := Next(e, m, call); Waiting(s, id, init + [call], n) || Granted(s, id, init + [call], n)
  {
    hide Sound, SubmitZk, AuthorizedLive, Live, Enough, Approvers, HasProof;
    ProofIff(e, m, call.now, id, Initiation, call.nullifier, true, call.applied);
    WaitingTakes(e, s, id, init, call, m);
    ApproversGrow(init, call);
    if m.attempts[id].nullifier.None? {
      EffectDecides(e, s, id, init, call, m, WithProof(m.attempts[id], Initiation, call.nullifier), Next(e, m, call));
    }
  }

  /** After any evidence nothing is wrong with, in any order and with repetitions, the attempt
      still lacks evidence or is authorized. */
  lemma {:induction false} Collected(e: Setting, s: Store, id: nat, calls: seq<Call>)
    requires Sound(e, s) && Pending(s, id) && AllSupport(s, s.attempts[id], calls)
    requires !EnoughWith(s, id, [])
    ensures Sound(e, After(e, s, calls))
    ensures Waiting(s, id, calls, After(e, s, calls)) || Granted(s, id, calls, After(e, s, calls))
  {
    hide Sound, Next, Supports, Enough, Waiting, Granted, Pending;
    if calls == [] {
      NothingYet(s, id);
    } else {
      var init, call := calls[..|calls|-1], calls[|calls|-1];
      assert calls == init + [call];
      Collected(e, s, id, init);
      var m := After(e, s, init);
      NextSound(e, m, call);
      CollectOne(e, s, id, init, call, m);
    }
  }

  lemma NothingYet(s: Store, id: nat)
    requires Pending(s, id)
    requires !EnoughWith(s, id, [])
    ensures Waiting(s, id, [], s)
  {
    hide Enough;
    assert s.attempts == s.attempts[id := s.attempts[id]];
    NoCalls();
    assert Elements(s.attempts[id].guardians) + Approvers([]) == Elements(s.attempts[id].guardians);
  }

  lemma NoCalls()
    ensures Approvers([]) == {} && !HasProof([])
  {
  }

  lemma CollectOne(e: Setting, s: Store, id: nat, init: seq<Call>, call: Call, m: Store)
    requires Pending(s, id) && Sound(e, s) && Sound(e, m) && Supports(s, s.attempts[id], call)
    requires Waiting(s, id, init, m) || Granted(s, id, init, m)
    ensures var n := Next(e, m, call); Waiting(s, id, init + [call], n) || Granted(s, id, init + [call], n)
  {
    hide Next, Enough, Waiting, Granted, AuthorizedLive, AttemptOk, MarkerOk;
    SoundKeyed(e, s);
    if Granted(s, id, init, m) {
      GrantedStays(e, s, id, init, call, m);
    } else if call.GuardianCall? {
      ApprovalDecides(e, s, id, init, call, m);
    } else {
      ProofDecides(e, s, id, init, call, m);
    }
  }

  /** A completed recovery at any ledger of the window one of the calls opened. */
  ghost predicate Completes(e: Setting, s: Store, id: nat, calls: seq<Call>, k: nat)
    requires Pending(s, id)
  {
    k < |calls| &&
    var a, config, from := s.attempts[id], s.config.value, calls[k].now;
    forall now: u32, ch: Change ::
      from + config.delay <= now < from + config.delay + config.expiry && ch.doc == a.target &&
      ch.config.Some? && ch.config.value.controller == e.here && ch.config.value.hash == a.targetConfig ==>
        var r := EnforceThenSync(After(e, s, calls), e.account, e.here, now, ch);
        r.Ok? && r.value.outcome == Account.Completed(Some(a.replaced)) && r.value.store.config == ch.config
  }

  lemma GrantedCompletes(e: Setting, s: Store, id: nat, n: Store, now: u32, ch: Change)
    requires Pending(s, id) && Sound(e, n) && n.authorized == Some(id) && id in n.attempts && n.epoch == s.epoch
    requires var b := n.attempts[id];
             && b.phase == Authorized && b.epoch == s.epoch && b.executableAfter <= now < b.expiresAt
             && ch.doc == b.target && ch.config.Some? && ch.config.value.controller == e.here
             && ch.config.value.hash == b.targetConfig
    ensures var r := EnforceThenSync(n, e.account, e.here, now, ch);
            && r.Ok? && r.value.outcome == Account.Completed(Some(n.attempts[id].replaced))
            && r.value.store.config == ch.config
  {
    hide AttemptOk, MarkerOk;
    SoundKeyed(e, n);
    CompletableIff(e, n, now, ch);
  }

  /** Enough evidence recovers the account. From any sound store, whatever approvals and proofs
      come in for a pending attempt by its deadline, in any order: as soon as they come from as
      many different guardians as the quorum, and include a proof if one is asked for, the
      attempt can be completed throughout the window opened by the call that brings enough. */
  lemma Recovers(e: Setting, s: Store, id: nat, calls: seq<Call>)
    requires Sound(e, s) && Pending(s, id) && AllSupport(s, s.attempts[id], calls)
    requires !EnoughWith(s, id, []) && EnoughWith(s, id, calls)
    ensures exists k: nat :: Reaches(s, id, calls, k) && Completes(e, s, id, calls, k)
  {
    hide Sound, After, Supports, Enough, EnforceThenSync;
    Collected(e, s, id, calls);
    var n := After(e, s, calls);
    assert Granted(s, id, calls, n);
    var k: nat :| Reaches(s, id, calls, k) && n.attempts[id].authorizedAt == calls[k].now;
    forall now: u32, ch: Change |
      && n.attempts[id].executableAfter <= now < n.attempts[id].expiresAt && ch.doc == s.attempts[id].target
      && ch.config.Some? && ch.config.value.controller == e.here && ch.config.value.hash == s.attempts[id].targetConfig
      ensures var r := EnforceThenSync(n, e.account, e.here, now, ch);
              && r.Ok? && r.value.outcome == Account.Completed(Some(s.attempts[id].replaced))
              && r.value.store.config == ch.config
    {
      GrantedCompletes(e, s, id, n, now, ch);
    }
    assert Completes(e, s, id, calls, k);
  }

  /** Nothing that was authorized earlier is live again later. */
  lemma NoneLater(s: Store, now: u32, later: u32)
    requires AuthorizedLive(s, now).None? && now <= later
    ensures AuthorizedLive(s, later).None?
  {
  }

  /** The evidence for the attempt that a call begins: by its deadline, and not before it. */
  ghost predicate Backs(s: Store, begun: u32, a: Attempt, call: Call)
    requires s.config.Some?
  {
    && Submits(call, Initiation) && call.id == a.id && begun <= call.now <= begun + s.config.value.expiry
    && (a.action == LostKey ==> call.applied == Some(a.source))
    && (call.GuardianCall? ==> call.signed && IsGuardian(s.config.value, call.guardian))
    && (call.ZkCall? ==> s.config.value.zk && call.verified && call.nullifier !in s.spent)
  }

  /** So beginning an attempt and collecting a quorum of approvals, and a proof if one is asked
      for, recovers the account. */
  lemma BeginRecovers(e: Setting, s: Store, now: u32, action: RecoveryAction, req: Request, calls: seq<Call>)
    requires Sound(e, s) && Begin(s, e.fps, now, action, req).Ok?
    requires !Enough(s.config.value, {}, false) && Enough(s.config.value, Approvers(calls), HasProof(calls))
    requires var n := Begin(s, e.fps, now, action, req).value;
             s.nextAttempt in n.attempts &&
             forall k :: 0 <= k < |calls| ==> Backs(s, now, n.attempts[s.nextAttempt], calls[k])
    ensures var n := Begin(s, e.fps, now, action, req).value;
            Pending(n, s.nextAttempt) && exists k: nat :: Reaches(n, s.nextAttempt, calls, k) &&
                                                           Completes(e, n, s.nextAttempt, calls, k)
  {
    hide Sound, Enough, AuthorizedLive, Approvers, HasProof, NoneIn, ReplacedLeave;
    var n, id := Begin(s, e.fps, now, action, req).value, s.nextAttempt;
    BeginSound(e, s, now, action, req);
    BelowNext(e, s);
    assert Elements(n.attempts[id].guardians) == {};
    assert Elements(n.attempts[id].guardians) + Approvers(calls) == Approvers(calls);
    NoCalls();
    assert Elements(n.attempts[id].guardians) + Approvers([]) == {};
    forall k | 0 <= k < |calls| ensures Supports(n, n.attempts[id], calls[k]) {
      assert Backs(s, now, n.attempts[id], calls[k]);
      NoneLater(s, now, calls[k].now);
      BegunLater(e, s, now, action, req, calls[k].now);
    }
    Recovers(e, n, id, calls);
  }

  lemma BelowNext(e: Setting, s: Store)
    requires Sound(e, s)
    ensures s.invalidateBelow <= s.nextAttempt
  {
  }

  lemma BegunLater(e: Setting, s: Store, now: u32, action: RecoveryAction, req: Request, later: u32)
    requires Sound(e, s) && Begin(s, e.fps, now, action, req).Ok? && AuthorizedLive(s, later).None?
    ensures AuthorizedLive(Begin(s, e.fps, now, action, req).value, later).None?
  {
    hide ByConfig, NoDuplicates, MarkerOk, NoneIn, ReplacedLeave;
    if s.authorized.Some? { assert AttemptOk(e, s, s.authorized.value, s.attempts[s.authorized.value]); }
  }
}
