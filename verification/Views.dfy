/** What controllers read from the account (crates/perch-recovery/src/contract.rs): the applied
    document and the revoked credentials, at the moment of the call and not as the caller says. */
module Views {
  import opened Base
  import opened Doc
  import opened Revocation
  import opened Lifecycle
  import opened Recoverable
  import C = Controller
  import Safeguards

  /** The store of the adopted controller after a direct call. */
  lemma DirectStored(env: Env, w: World, at: string, call: C.Call)
    requires w.account.controller == Some(at) && call.now >= w.ledger && !call.SyncCall?
    ensures StoreAt(Next(env, w, AtController(at, call)), at) ==
            C.Next(SettingAt(env, at), StoreAt(w, at), WithView(w, call))
  {
    hide C.Next, GateCall;
    LedgerIgnored(env, w, AtController(at, call), call.now);
  }

  /** An attempt is begun only for a target without a credential that is revoked by then, and
      for a lost key only over the document that is applied by then, whatever the call says. */
  lemma BegunOverView(env: Env, w: World, at: string, call: C.Call)
    requires w.account.controller == Some(at) && call.BeginCall? && call.now >= w.ledger
    requires StoreAt(Next(env, w, AtController(at, call)), at).nextAttempt != StoreAt(w, at).nextAttempt
    ensures var id, n := StoreAt(w, at).nextAttempt, StoreAt(Next(env, w, AtController(at, call)), at);
            && id in n.attempts
            && Elements(Fps(env)(n.attempts[id].target)) !! w.account.revoked
            && (n.attempts[id].action == LostKey ==> w.doc == Some(n.attempts[id].source))
  {
    hide C.AuthorizedLive, ReplacedLeave;
    DirectStored(env, w, at, call);
    var req := call.req.(applied := w.doc, revoked := w.account.revoked);
    Safeguards.BeginIff(StoreAt(w, at), Fps(env), call.now, call.action, req);
  }

  /** The approval that brings enough authorizes at once, unless a key was lost and its source
      is no longer applied: then the attempt is over. */
  lemma ApprovalAuthorizes(env: Env, w: World, at: string, call: C.Call)
    requires w.account.controller == Some(at) && call.GuardianCall? && call.now >= w.ledger
    requires call.domain == C.Initiation && call.signed
    requires var s := StoreAt(w, at);
             && C.Sound(SettingAt(env, at), s) && Takes(s, call.now, call.id, C.Initiation)
             && C.AuthorizedLive(s, call.now).None? && C.IsGuardian(s.config.value, call.guardian)
             && var a := s.attempts[call.id];
                && call.guardian !in a.guardians
                && Enough(s.config.value, Elements(a.guardians + [call.guardian]), a.nullifier.Some?)
    ensures var a, n := StoreAt(w, at).attempts[call.id], StoreAt(Next(env, w, AtController(at, call)), at);
            && call.id in n.attempts
            && n.attempts[call.id].phase ==
               if a.action == LostKey && w.doc != Some(a.source) then C.Invalidated else C.Authorized
  {
    hide C.Sound, C.SubmitGuardian, C.AuthorizedLive, C.Live, Enough, Next, Fps;
    var s := StoreAt(w, at);
    DirectStored(env, w, at, call);
    StoresKeyed(SettingAt(env, at), s);
    ApprovalIff(SettingAt(env, at), s, call.now, call.id, C.Initiation, call.guardian, true, w.doc);
  }

  /** Likewise the proof that brings enough. */
  lemma ProofAuthorizes(env: Env, w: World, at: string, call: C.Call)
    requires w.account.controller == Some(at) && call.ZkCall? && call.now >= w.ledger
    requires call.domain == C.Initiation && call.verified
    requires var s := StoreAt(w, at);
             && C.Sound(SettingAt(env, at), s) && Takes(s, call.now, call.id, C.Initiation)
             && C.AuthorizedLive(s, call.now).None? && s.config.value.zk && call.nullifier !in s.spent
             && s.attempts[call.id].nullifier.None?
             && Enough(s.config.value, Elements(s.attempts[call.id].guardians), true)
    ensures var a, n := StoreAt(w, at).attempts[call.id], StoreAt(Next(env, w, AtController(at, call)), at);
            && call.id in n.attempts
            && n.attempts[call.id].phase ==
               if a.action == LostKey && w.doc != Some(a.source) then C.Invalidated else C.Authorized
  {
    hide C.Sound, C.SubmitZk, C.AuthorizedLive, C.Live, Enough, Next, Fps;
    var s := StoreAt(w, at);
    DirectStored(env, w, at, call);
    StoresKeyed(SettingAt(env, at), s);
    ProofIff(SettingAt(env, at), s, call.now, call.id, C.Initiation, call.nullifier, true, w.doc);
  }
}
