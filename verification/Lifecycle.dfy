/** An account and the recovery controllers it uses, together
    (crates/perch-smart-account/src/lib.rs, crates/perch-recovery/src/contract.rs): what a
    completion relies on is what the controllers enforce. Every controller the account adopts
    runs the modelled contract. */
module Lifecycle {
  import opened Base
  import opened Doc
  import opened Field
  import opened Revocation
  import A = Account
  import C = Controller
  import E = Evidence
  import G = Safeguards

  // ----- the system -----

  /** The recovery member of a compiled document. */
  datatype Recovery = Recovery(config: C.Config, zk: Option<A.CompiledZkFactor>)

  datatype Document = Document(adminSurvives: bool, fingerprints: seq<Fingerprint>, recovery: Option<Recovery>)

  /** The account's address and the compiler. */
  datatype Env = Env(me: string, compile: C.DocId -> Option<Document>)

  function Fps(env: Env): C.Fingerprints {
    (doc: C.DocId) => if env.compile(doc).Some? then env.compile(doc).value.fingerprints else []
  }

  /** What the account sees of a document. */
  function CompiledOf(env: Env, doc: C.DocId): Option<A.Compiled> {
    match env.compile(doc)
    case None => None
    case Some(d) => Some(A.Compiled(d.adminSurvives, d.fingerprints,
                                    if d.recovery.None? then None
                                    else Some(A.Recovery(d.recovery.value.config.controller, d.recovery.value.zk))))
  }

  /** What a controller sees of it. */
  function ConfigOf(env: Env, doc: C.DocId): Option<C.Config> {
    match env.compile(doc)
    case None => None
    case Some(d) => if d.recovery.None? then None else Some(d.recovery.value.config)
  }

  /** The account's freeze, mirrored from the adopted controller. */
  datatype Gate = Gate(attempt: nat, until: u32)

  datatype World = World(
    account: A.State, doc: Option<C.DocId>, gate: Option<Gate>, stores: map<string, C.Store>, ledger: u32)

  const START := World(A.INITIAL, None, None, map[], 0)

  function StoreAt(w: World, at: string): C.Store {
    if at in w.stores then w.stores[at] else C.EMPTY
  }

  function SettingAt(env: Env, at: string): C.Setting {
    C.Setting(env.me, at, Fps(env))
  }

  /** Checks outside the contracts that a controller relies on. */
  datatype Checks = Checks(approved: bool, factorOk: bool, wired: bool)

  datatype Step =
    | AtController(at: string, call: C.Call)
    | ApplyDoc(authorized: bool, doc: C.DocId, now: u32, expected: Option<nat>, current: Checks, next: Checks,
               poolAccepts: bool)

  function Now(st: Step): u32 {
    if st.AtController? then st.call.now else st.now
  }

  /** The call with what the controller reads from the account. */
  function WithView(w: World, call: C.Call): C.Call {
    match call
    case BeginCall(now, action, req) =>
      C.BeginCall(now, action, req.(applied := w.doc, revoked := w.account.revoked))
    case GuardianCall(now, id, domain, g, signed, _) => C.GuardianCall(now, id, domain, g, signed, w.doc)
    case ZkCall(now, id, domain, nf, verified, _) => C.ZkCall(now, id, domain, nf, verified, w.doc)
    case _ => call
  }

  function ChangeOf(env: Env, doc: C.DocId, checks: Checks): C.Change {
    C.Change(doc, ConfigOf(env, doc), checks.approved, checks.factorOk, checks.wired)
  }

  function Answer(env: Env, w: World, at: string, now: u32, ch: C.Change): Option<C.Synced> {
    match C.RcvSync(StoreAt(w, at), env.me, at, now, ch) case Ok(r) => Some(r) case Err(_) => None
  }

  function Outcome(r: Option<C.Synced>): Option<A.Sync> {
    match r case Some(x) => Some(x.outcome) case None => None
  }

  /** What the adopted controller answers. */
  function Current(env: Env, w: World, st: Step): Option<C.Synced>
    requires st.ApplyDoc?
  {
    if w.account.controller.None? then None
    else Answer(env, w, w.account.controller.value, st.now, ChangeOf(env, st.doc, st.current))
  }

  /** The document's own controller, if it is another. */
  function SwitchTo(env: Env, w: World, doc: C.DocId): Option<string> {
    var c := CompiledOf(env, doc);
    if c.Some? && A.Switches(w.account, c.value) then A.ControllerOf(c.value) else None
  }

  /** What it answers. */
  function Adopted(env: Env, w: World, st: Step): Option<C.Synced>
    requires st.ApplyDoc?
  {
    var to := SwitchTo(env, w, st.doc);
    if to.None? then None else Answer(env, w, to.value, st.now, ChangeOf(env, st.doc, st.next))
  }

  /** The account's call, with the controllers' answers to it. */
  function CallOf(env: Env, w: World, st: Step): A.Apply
    requires st.ApplyDoc?
  {
    A.Apply(st.authorized, st.expected, CompiledOf(env, st.doc), Outcome(Current(env, w, st)),
            Outcome(Adopted(env, w, st)), st.poolAccepts)
  }

  predicate Accepted(env: Env, w: World, st: Step)
    requires st.ApplyDoc?
  {
    A.Next(w.account, CallOf(env, w, st)).Ok?
  }

  predicate IsProtected(s: C.Store) {
    s.config.Some? && s.config.value.profile == Protected
  }

  /** Under `Protected` the controller freezes the account when it authorizes an attempt and
      lifts the freeze when an authorized one is cancelled. */
  function GateCall(s: C.Store, n: C.Store): Option<Gate> {
    if !IsProtected(s) || n.authorized == s.authorized then None
    else if n.authorized.Some? && n.authorized.value in n.attempts
      then Some(Gate(n.authorized.value, n.attempts[n.authorized.value].expiresAt))
    else if n.authorized.None? then Some(Gate(s.authorized.value, 0))
    else None
  }

  /** The account's side of it. */
  function Gated(gate: Option<Gate>, call: Option<Gate>): Option<Gate> {
    if call.None? then gate
    else if call.value.until > 0 then call
    else if gate.Some? && gate.value.attempt == call.value.attempt then None
    else gate
  }

  /** The store a direct call leads to, unless the account refuses the freeze: it takes it
      from the adopted controller alone. */
  function DirectCall(env: Env, w: World, at: string, call: C.Call): Option<C.Store> {
    var s := StoreAt(w, at);
    var n := C.Next(SettingAt(env, at), s, WithView(w, call));
    if call.SyncCall? || (GateCall(s, n).Some? && w.account.controller != Some(at)) then None else Some(n)
  }

  /** The controllers' stores after an accepted document. */
  function Stores(env: Env, w: World, st: Step): map<string, C.Store>
    requires st.ApplyDoc?
  {
    var cur, adopted := Current(env, w, st), Adopted(env, w, st);
    var one := if cur.Some? then w.stores[w.account.controller.value := cur.value.store] else w.stores;
    if adopted.Some? then one[SwitchTo(env, w, st.doc).value := adopted.value.store] else one
  }

  /** One call of the system. Controllers are synchronized by the account alone. */
  function Made(env: Env, w: World, st: Step): World {
    match st
    case AtController(at, call) =>
      (match DirectCall(env, w, at, call)
       case None => w
       case Some(n) => w.(stores := w.stores[at := n], gate := Gated(w.gate, GateCall(StoreAt(w, at), n))))
    case ApplyDoc(_, doc, _, _, _, _, _) =>
      if !Accepted(env, w, st) then w
      else w.(account := A.Next(w.account, CallOf(env, w, st)).value, doc := Some(doc), stores := Stores(env, w, st),
              gate := if A.Completes(w.account, CallOf(env, w, st)) then None else w.gate)
  }

  /** Ledgers never go back. */
  function Next(env: Env, w: World, st: Step): World {
    if Now(st) < w.ledger then w else Made(env, w.(ledger := Now(st)), st)
  }

  function After(env: Env, w: World, steps: seq<Step>): World {
    if steps == [] then w else Next(env, After(env, w, steps[..|steps|-1]), steps[|steps|-1])
  }

  // ----- each controller's own run -----

  /** The call a step makes at a controller. */
  function CallAt(env: Env, w: World, st: Step, at: string): Option<C.Call> {
    if Now(st) < w.ledger then None
    else
      match st
      case AtController(x, call) =>
        if x == at && DirectCall(env, w, at, call).Some? then Some(WithView(w, call)) else None
      case ApplyDoc(_, doc, now, _, current, next, _) =>
        if !Accepted(env, w, st) then None
        else if w.account.controller == Some(at) then Some(C.SyncCall(now, ChangeOf(env, doc, current)))
        else if SwitchTo(env, w, doc) == Some(at) then Some(C.SyncCall(now, ChangeOf(env, doc, next)))
        else None
  }

  function StepStore(env: Env, s: C.Store, at: string, call: Option<C.Call>): C.Store {
    if call.None? then s else C.Next(SettingAt(env, at), s, call.value)
  }

  /** The moment matters only to `Next`. */
  lemma LedgerIgnored(env: Env, w: World, st: Step, now: u32)
    ensures var v := w.(ledger := now);
            && (forall at, call :: DirectCall(env, v, at, call) == DirectCall(env, w, at, call))
            && (st.ApplyDoc? ==>
                  && Current(env, v, st) == Current(env, w, st) && Adopted(env, v, st) == Adopted(env, w, st)
                  && CallOf(env, v, st) == CallOf(env, w, st) && Stores(env, v, st) == Stores(env, w, st))
  {
    hide C.Next, C.RcvSync;
    var v := w.(ledger := now);
    assert forall at :: StoreAt(v, at) == StoreAt(w, at);
  }

  lemma StoreStepped(env: Env, w: World, st: Step, at: string)
    ensures StoreAt(Next(env, w, st), at) == StepStore(env, StoreAt(w, at), at, CallAt(env, w, st, at))
  {
    hide A.NextCompiled, C.RcvSync, GateCall;
    LedgerIgnored(env, w, st, Now(st));
    if Now(st) >= w.ledger && st.ApplyDoc? && Accepted(env, w, st) {
      AcceptedAnswers(env, w, st);
    }
  }

  /** An accepted document had every controller's consent it needs. */
  lemma AcceptedAnswers(env: Env, w: World, st: Step)
    requires st.ApplyDoc? && Accepted(env, w, st)
    ensures CompiledOf(env, st.doc).Some?
    ensures w.account.controller.Some? ==> Current(env, w, st).Some?
    ensures SwitchTo(env, w, st.doc).Some? ==>
              Adopted(env, w, st).Some? && SwitchTo(env, w, st.doc) != w.account.controller
  {
    hide C.RcvSync;
  }

  /** All calls made at a controller along a run. */
  function History(env: Env, steps: seq<Step>, at: string): seq<C.Call> {
    if steps == [] then []
    else
      var init := steps[..|steps|-1];
      var call := CallAt(env, After(env, START, init), steps[|steps|-1], at);
      History(env, init, at) + if call.Some? then [call.value] else []
  }

  /** Each controller sees a run of its own. */
  lemma {:induction false} StoreIsRun(env: Env, steps: seq<Step>, at: string)
    ensures StoreAt(After(env, START, steps), at) == C.After(SettingAt(env, at), C.EMPTY, History(env, steps, at))
  {
    hide Next, CallAt, C.Next;
    if steps != [] {
      var init, st := steps[..|steps|-1], steps[|steps|-1];
      var w := After(env, START, init);
      StoreIsRun(env, init, at);
      StoreStepped(env, w, st, at);
      var h, call := History(env, init, at), CallAt(env, w, st, at);
      if call.Some? { assert (h + [call.value])[..|h|] == h; } else { assert h + [] == h; }
    }
  }

  /** Every call in a controller's run was made by a step, over the run up to it. */
  lemma {:induction false} HistoryStep(env: Env, steps: seq<Step>, at: string, j: nat) returns (i: nat)
    requires j < |History(env, steps, at)|
    ensures i < |steps| && CallAt(env, After(env, START, steps[..i]), steps[i], at) == Some(History(env, steps, at)[j])
    ensures History(env, steps, at)[..j] == History(env, steps[..i], at)
  {
    hide CallAt, After;
    var init := steps[..|steps|-1];
    var h := History(env, init, at);
    if j < |h| {
      i := HistoryStep(env, init, at, j);
      assert init[..i] == steps[..i];
      assert History(env, steps, at)[..j] == h[..j];
    } else {
      i := |steps| - 1;
      assert History(env, steps, at)[..j] == h;
    }
  }

  lemma {:induction false} AfterSplit(env: Env, w: World, a: seq<Step>, b: seq<Step>)
    ensures After(env, w, a + b) == After(env, After(env, w, a), b)
  {
    hide Next;
    if b == [] {
      assert a + b == a;
    } else {
      AfterSplit(env, w, a, b[..|b|-1]);
      assert (a + b)[..|a + b|-1] == a + b[..|b|-1];
    }
  }

  lemma StoreSound(env: Env, steps: seq<Step>, at: string)
    ensures C.Sound(SettingAt(env, at), StoreAt(After(env, START, steps), at))
  {
    hide After, C.After, C.Sound;
    StoreIsRun(env, steps, at);
    C.RunSound(SettingAt(env, at), History(env, steps, at));
  }

  // ----- what every reachable state satisfies -----

  ghost predicate StoresSound(env: Env, w: World) {
    forall at :: C.Sound(SettingAt(env, at), StoreAt(w, at))
  }

  /** Only the adopted controller has a configuration for the account. */
  ghost predicate OneController(w: World) {
    forall at :: StoreAt(w, at).config.Some? ==> w.account.controller == Some(at)
  }

  /** An authorized lost-key attempt is over the applied document. */
  ghost predicate SourcesApplied(w: World) {
    forall at :: G.InWindow(StoreAt(w, at), w.ledger) ==>
      var a := C.AuthorizedLive(StoreAt(w, at), w.ledger).value;
      a.action == LostKey ==> w.doc == Some(a.source)
  }

  /** The adopted controller's authorized attempt under `Protected`. */
  predicate Freezes(w: World, now: u32) {
    && w.account.controller.Some? && IsProtected(StoreAt(w, w.account.controller.value))
    && G.InWindow(StoreAt(w, w.account.controller.value), now)
  }

  /** The gate mirrors it. */
  ghost predicate GateMirrors(w: World) {
    && (Freezes(w, w.ledger) ==>
          var a := C.AuthorizedLive(StoreAt(w, w.account.controller.value), w.ledger).value;
          w.gate == Some(Gate(a.id, a.expiresAt)))
    && (w.gate.Some? && w.ledger < w.gate.value.until ==> Freezes(w, w.ledger))
  }

  ghost predicate Sound(env: Env, w: World) {
    A.Sound(w.account) && StoresSound(env, w) && OneController(w) && SourcesApplied(w) && GateMirrors(w)
  }

  // ----- completions -----

  /** A completion that the adopted controller reports rests on an attempt it authorized for
      this document, and replaces only credentials the document does not have. */
  lemma CompletionRests(env: Env, w: World, st: Step)
    requires StoresSound(env, w) && st.ApplyDoc? && A.Completes(w.account, CallOf(env, w, st))
    ensures var s := StoreAt(w, w.account.controller.value);
            && G.InWindow(s, st.now) && s.config.Some?
            && var a := C.AuthorizedLive(s, st.now).value;
               && a.target == st.doc && a.id in s.attempts && s.attempts[a.id] == a && a.epoch == s.epoch
               && a.executableAfter <= st.now < a.expiresAt && C.EvidenceComplete(s.config.value, a)
               && a.executableAfter == a.authorizedAt + s.config.value.delay
               && a.expiresAt == a.executableAfter + s.config.value.expiry
               && CallOf(env, w, st).current == Some(A.Completed(Some(a.replaced)))
               && ReplacedLeave(a.replaced, Fps(env)(st.doc))
  {
    hide C.Sound, C.RcvSync, C.EvidenceComplete, C.AuthorizedLive;
    var at := w.account.controller.value;
    C.CompletionRecorded(SettingAt(env, at), StoreAt(w, at), st.now, ChangeOf(env, st.doc, st.current));
  }

  /** So the account's side condition on completions always holds, and no completion hands
      back a credential without a fingerprint. */
  lemma CallDeclared(env: Env, w: World, st: Step)
    requires StoresSound(env, w) && st.ApplyDoc?
    ensures A.Declared(w.account, CallOf(env, w, st))
    ensures A.Next(w.account, CallOf(env, w, st)) != Err(A.InvalidCredential)
  {
    hide StoresSound, C.EvidenceComplete, C.AuthorizedLive, ReplacedLeave, Answer;
    if A.Completes(w.account, CallOf(env, w, st)) { CompletionRests(env, w, st); }
  }

  // ----- one step -----

  /** Time closes windows and opens none. */
  lemma WindowsClose(env: Env, w: World, at: string, t: u32, u: u32)
    requires StoresSound(env, w) && t <= u
    ensures G.InWindow(StoreAt(w, at), u) ==>
              && G.InWindow(StoreAt(w, at), t)
              && C.AuthorizedLive(StoreAt(w, at), t) == C.AuthorizedLive(StoreAt(w, at), u)
    ensures G.InWindow(StoreAt(w, at), t) && u < C.AuthorizedLive(StoreAt(w, at), t).value.expiresAt ==>
              G.InWindow(StoreAt(w, at), u)
  {
    hide C.AttemptOk, C.MarkerOk;
    assert C.Sound(SettingAt(env, at), StoreAt(w, at));
  }

  lemma StepSoundStores(env: Env, w: World, st: Step)
    requires StoresSound(env, w)
    ensures StoresSound(env, Next(env, w, st))
  {
    hide C.Sound, Next, CallAt, C.Next;
    forall at ensures C.Sound(SettingAt(env, at), StoreAt(Next(env, w, st), at)) {
      StoreStepped(env, w, st, at);
      var call := CallAt(env, w, st, at);
      if call.Some? { C.NextSound(SettingAt(env, at), StoreAt(w, at), call.value); }
    }
  }

  lemma StepSoundAccount(env: Env, w: World, st: Step)
    requires A.Sound(w.account) && StoresSound(env, w)
    ensures A.Sound(Next(env, w, st).account)
  {
    hide C.Sound, A.Sound, A.Next, Answer, A.Declared, DirectCall;
    LedgerIgnored(env, w, st, Now(st));
    if st.ApplyDoc? && Accepted(env, w, st) {
      CallDeclared(env, w, st);
      A.StepSoundIff(w.account, CallOf(env, w, st));
    }
  }

  /** What a step leaves of a controller it does not call, or calls. */
  lemma StepConfig(env: Env, w: World, st: Step, at: string)
    requires OneController(w)
    ensures StoreAt(Next(env, w, st), at).config.Some? ==> Next(env, w, st).account.controller == Some(at)
  {
    hide C.Next, C.RcvSync, A.NextCompiled, GateCall, Answer;
    LedgerIgnored(env, w, st, Now(st));
    StoreStepped(env, w, st, at);
    var call := CallAt(env, w, st, at);
    if call.Some? {
      if call.value.SyncCall? {
        AcceptedController(env, w, st);
        AnswerConfig(env, w, st, at);
      } else {
        G.DirectKeepsConfig(SettingAt(env, at), StoreAt(w, at), call.value);
      }
    } else if st.ApplyDoc? && Now(st) >= w.ledger && Accepted(env, w, st) {
      AcceptedController(env, w, st);
    }
  }

  lemma AcceptedController(env: Env, w: World, st: Step)
    requires st.ApplyDoc? && Accepted(env, w, st)
    ensures CompiledOf(env, st.doc).Some?
    ensures A.Next(w.account, CallOf(env, w, st)).value.controller == A.ControllerOf(CompiledOf(env, st.doc).value)
    ensures ConfigOf(env, st.doc).Some? ==>
              A.ControllerOf(CompiledOf(env, st.doc).value) == Some(ConfigOf(env, st.doc).value.controller)
  {
    hide Answer;
  }

  lemma AnswerConfig(env: Env, w: World, st: Step, at: string)
    requires CallAt(env, w, st, at).Some? && CallAt(env, w, st, at).value.SyncCall?
    ensures st.ApplyDoc? && Accepted(env, w, st)
    ensures StepStore(env, StoreAt(w, at), at, CallAt(env, w, st, at)).config.Some? ==>
              ConfigOf(env, st.doc).Some? && ConfigOf(env, st.doc).value.controller == at
    ensures G.InWindow(StoreAt(w, at), st.now) ==>
              StepStore(env, StoreAt(w, at), at, CallAt(env, w, st, at)).authorized.None?
  {
    hide C.RcvSync, A.NextCompiled, GateCall;
    LedgerIgnored(env, w, st, Now(st));
    AcceptedAnswers(env, w, st);
    var call := CallAt(env, w, st, at).value;
    G.SyncConfig(StoreAt(w, at), env.me, at, call.now, call.change);
    C.SyncStores(SettingAt(env, at), StoreAt(w, at), call);
  }

  /** What a step means for the authorized attempt at a controller. */
  lemma StepWindow(env: Env, w: World, st: Step, at: string)
    requires StoresSound(env, w) && Now(st) >= w.ledger && CallAt(env, w, st, at).Some?
    ensures CallAt(env, w, st, at).value.now == Now(st)
    ensures var s, call := StoreAt(w, at), CallAt(env, w, st, at).value;
            var n := C.Next(SettingAt(env, at), s, call);
            G.LiveFrom(s, call, n) && G.LiveTo(s, call, n)
  {
    hide C.Next, C.Sound, DirectCall, Answer, A.Next;
    G.NextLive(SettingAt(env, at), StoreAt(w, at), CallAt(env, w, st, at).value);
  }

  lemma StepSources(env: Env, w: World, st: Step, at: string)
    requires StoresSound(env, w) && OneController(w) && SourcesApplied(w)
    ensures var n := Next(env, w, st);
            G.InWindow(StoreAt(n, at), n.ledger) ==>
              var a := C.AuthorizedLive(StoreAt(n, at), n.ledger).value;
              a.action == LostKey ==> n.doc == Some(a.source)
  {
    hide C.Next, C.Sound, C.AuthorizedLive, DirectCall, Answer, A.Next, C.RcvSync, GateCall;
    if Now(st) >= w.ledger {
      LedgerIgnored(env, w, st, Now(st));
      StoreStepped(env, w, st, at);
      var s, n, call := StoreAt(w, at), Next(env, w, st), CallAt(env, w, st, at);
      WindowsClose(env, w, at, w.ledger, Now(st));
      if G.InWindow(s, Now(st)) { G.WindowHasConfig(SettingAt(env, at), s, Now(st)); }
      if call.Some? {
        StepWindow(env, w, st, at);
        if call.value.SyncCall? {
          AnswerConfig(env, w, st, at);
          if G.InWindow(StoreAt(n, at), n.ledger) { NotInWindow(StoreAt(n, at), n.ledger); }
        }
      }
    }
  }

  lemma NotInWindow(s: C.Store, now: u32)
    ensures s.authorized.None? ==> !G.InWindow(s, now)
  {
  }

  // ----- the freeze -----

  /** A gate that is still shut, and the attempt it stands for, as time passes. */
  lemma GateLater(env: Env, w: World, now: u32)
    requires StoresSound(env, w) && GateMirrors(w) && w.ledger <= now
    ensures w.gate.Some? && now < w.gate.value.until <==> Freezes(w, now)
    ensures Freezes(w, now) ==>
              var s := StoreAt(w, w.account.controller.value);
              && w.gate == Some(Gate(C.AuthorizedLive(s, now).value.id, C.AuthorizedLive(s, now).value.expiresAt))
              && s.authorized == Some(w.gate.value.attempt)
  {
    hide C.Sound, C.AuthorizedLive;
    if w.account.controller.Some? {
      var at := w.account.controller.value;
      WindowsClose(env, w, at, w.ledger, now);
      if G.InWindow(StoreAt(w, at), now) { G.WindowHasConfig(SettingAt(env, at), StoreAt(w, at), now); }
    }
  }

  /** The gate after a direct call at the adopted controller. */
  lemma DirectGate(e: C.Setting, s: C.Store, call: C.Call, gate: Option<Gate>)
    requires C.Sound(e, s) && !call.SyncCall?
    requires gate.Some? && call.now < gate.value.until <==> IsProtected(s) && G.InWindow(s, call.now)
    requires IsProtected(s) && G.InWindow(s, call.now) ==>
               var a := C.AuthorizedLive(s, call.now).value;
               gate == Some(Gate(a.id, a.expiresAt)) && s.authorized == Some(a.id)
    ensures var n := C.Next(e, s, call);
            var after := Gated(gate, GateCall(s, n));
            && (after.Some? && call.now < after.value.until <==> IsProtected(n) && G.InWindow(n, call.now))
            && (IsProtected(n) && G.InWindow(n, call.now) ==>
                  var a := C.AuthorizedLive(n, call.now).value; after == Some(Gate(a.id, a.expiresAt)))
  {
    hide C.Next, C.Sound;
    var n := C.Next(e, s, call);
    C.NextSound(e, s, call);
    G.NextLive(e, s, call);
    G.DirectKeepsConfig(e, s, call);
    if G.InWindow(n, call.now) { G.WindowHasConfig(e, n, call.now); }
    if n.authorized.Some? && n.authorized != s.authorized {
      G.NewlyAuthorized(e, s, call);
    }
  }

  lemma StepGate(env: Env, w: World, st: Step)
    requires StoresSound(env, w) && OneController(w) && GateMirrors(w)
    ensures GateMirrors(Next(env, w, st))
  {
    hide C.Next, C.Sound, C.AuthorizedLive, Answer, A.Next, C.RcvSync, GateCall, Gated, StoresSound, GateMirrors;
    if Now(st) >= w.ledger {
      LedgerIgnored(env, w, st, Now(st));
      GateLater(env, w, Now(st));
      match st
      case AtController(at, call) => StepGateDirect(env, w, at, call);
      case ApplyDoc(_, _, _, _, _, _, _) => StepGateApply(env, w, st);
    }
  }

  lemma StepGateDirect(env: Env, w: World, at: string, call: C.Call)
    requires StoresSound(env, w) && GateMirrors(w) && call.now >= w.ledger
    ensures GateMirrors(Next(env, w, AtController(at, call)))
  {
    hide C.Next, C.Sound, C.AuthorizedLive, Gated, StoresSound;
    LedgerIgnored(env, w, AtController(at, call), call.now);
    GateLater(env, w, call.now);
    var seen := WithView(w, call);
    assert C.Sound(SettingAt(env, at), StoreAt(w, at)) by { SoundAt(env, w, at); }
    if DirectCall(env, w, at, call).Some? && w.account.controller == Some(at) {
      DirectGate(SettingAt(env, at), StoreAt(w, at), seen, w.gate);
    }
    NoGate(w.gate);
  }

  lemma NoGate(gate: Option<Gate>)
    ensures Gated(gate, None) == gate
  {
  }

  lemma SoundAt(env: Env, w: World, at: string)
    requires StoresSound(env, w)
    ensures C.Sound(SettingAt(env, at), StoreAt(w, at))
  {
  }

  lemma StepGateApply(env: Env, w: World, st: Step)
    requires StoresSound(env, w) && GateMirrors(w) && st.ApplyDoc? && st.now >= w.ledger
    ensures GateMirrors(Next(env, w, st))
  {
    hide C.Next, C.Sound, C.AuthorizedLive, Answer, A.Next, C.RcvSync, StoresSound, A.ControllerOf, A.Switches;
    LedgerIgnored(env, w, st, st.now);
    GateLater(env, w, st.now);
    var n := Next(env, w, st);
    if Accepted(env, w, st) {
      if Freezes(w, st.now) { FrozenCompletes(env, w, st); }
      if n.account.controller.Some? { NothingInWindow(env, w, st, n.account.controller.value); }
    }
  }

  /** An accepted document in the window is the completion. */
  lemma FrozenCompletes(env: Env, w: World, st: Step)
    requires StoresSound(env, w) && st.ApplyDoc? && Accepted(env, w, st) && w.account.controller.Some?
    requires G.InWindow(StoreAt(w, w.account.controller.value), st.now)
    ensures A.Completes(w.account, CallOf(env, w, st))
  {
    hide C.RcvSync, A.NextCompiled;
    AcceptedAnswers(env, w, st);
    G.SyncConfig(StoreAt(w, w.account.controller.value), env.me, w.account.controller.value, st.now,
                 ChangeOf(env, st.doc, st.current));
  }

  /** After an accepted document no attempt is in its window at the adopted controller. */
  lemma NothingInWindow(env: Env, w: World, st: Step, at: string)
    requires StoresSound(env, w) && st.ApplyDoc? && st.now >= w.ledger && Accepted(env, w, st)
    requires Next(env, w, st).account.controller == Some(at)
    ensures !G.InWindow(StoreAt(Next(env, w, st), at), st.now)
  {
    hide C.Next, C.Sound, C.AuthorizedLive, Answer, C.RcvSync, StoresSound, DirectCall;
    LedgerIgnored(env, w, st, st.now);
    AcceptedController(env, w, st);
    StoreStepped(env, w, st, at);
    var call := CallAt(env, w, st, at);
    assert call.Some? && call.value.SyncCall?;
    StepWindow(env, w, st, at);
    AnswerConfig(env, w, st, at);
    NotInWindow(StoreAt(Next(env, w, st), at), st.now);
  }

  // ----- whole runs -----

  lemma StepSound(env: Env, w: World, st: Step)
    requires Sound(env, w)
    ensures Sound(env, Next(env, w, st))
  {
    hide Next, A.Sound, C.Sound, StoresSound, GateMirrors;
    StepSoundAccount(env, w, st);
    StepSoundStores(env, w, st);
    StepGate(env, w, st);
    forall at ensures StoreAt(Next(env, w, st), at).config.Some? ==> Next(env, w, st).account.controller == Some(at) {
      StepConfig(env, w, st, at);
    }
    var n := Next(env, w, st);
    forall at | G.InWindow(StoreAt(n, at), n.ledger)
      ensures var a := C.AuthorizedLive(StoreAt(n, at), n.ledger).value; a.action == LostKey ==> n.doc == Some(a.source)
    {
      StepSources(env, w, st, at);
    }
  }

  /** Whatever is called, in whatever order, at whatever controllers: no applied credential
      is revoked, the enrolled factor's leaf has been inserted under an id of its own, only
      the adopted controller knows the account, and the freeze mirrors its attempt. */
  lemma {:induction false} RunSound(env: Env, steps: seq<Step>)
    ensures Sound(env, After(env, START, steps))
  {
    hide Next, A.Sound, C.Sound;
    if steps == [] {
      A.InitialSound();
      forall at ensures C.Sound(SettingAt(env, at), StoreAt(START, at)) { C.EmptySound(SettingAt(env, at)); }
    } else {
      RunSound(env, steps[..|steps|-1]);
      StepSound(env, After(env, START, steps[..|steps|-1]), steps[|steps|-1]);
    }
  }

  /** At every moment from then on, the account is frozen exactly while its controller holds
      an authorized live attempt for it under `Protected`. */
  lemma FreezeExact(env: Env, steps: seq<Step>, now: u32)
    requires After(env, START, steps).ledger <= now
    ensures var w := After(env, START, steps);
            w.gate.Some? && now < w.gate.value.until <==> Freezes(w, now)
  {
    hide After, StoresSound, A.Sound, GateMirrors, Freezes;
    RunSound(env, steps);
    GateLater(env, After(env, START, steps), now);
  }

  /** Step `k` of a run completes an attempt. */
  ghost predicate CompletesAt(env: Env, steps: seq<Step>, k: nat) {
    && k < |steps| && steps[k].ApplyDoc?
    && var w := After(env, START, steps[..k]);
       w.ledger <= steps[k].now && Accepted(env, w, steps[k]) && A.Completes(w.account, CallOf(env, w, steps[k]))
  }

  /** The attempt, as it stands then at the adopted controller. */
  ghost function CompletedAt(env: Env, steps: seq<Step>, k: nat): (a: C.Attempt)
    requires CompletesAt(env, steps, k)
  {
    var w := After(env, START, steps[..k]);
    RunSound(env, steps[..k]);
    CompletionRests(env, w, steps[k]);
    C.AuthorizedLive(StoreAt(w, w.account.controller.value), steps[k].now).value
  }

  /** A lost-key recovery completes over the very document it was derived from. */
  lemma LostKeySource(env: Env, steps: seq<Step>, k: nat)
    requires CompletesAt(env, steps, k) && CompletedAt(env, steps, k).action == LostKey
    ensures After(env, START, steps[..k]).doc == Some(CompletedAt(env, steps, k).source)
  {
    hide After, StoresSound, A.Sound, GateMirrors, C.AuthorizedLive, CallOf;
    var w := After(env, START, steps[..k]);
    RunSound(env, steps[..k]);
    CompletionRests(env, w, steps[k]);
    WindowsClose(env, w, w.account.controller.value, w.ledger, steps[k].now);
  }

  // ----- evidence -----

  /** Step `i` was a call at the controller, accepted in time, when the attempt already stood
      for the same statement and this configuration was enrolled. */
  ghost predicate TimelyStep(env: Env, steps: seq<Step>, i: nat, at: string, a: C.Attempt, config: C.Config) {
    && i < |steps| && steps[i].AtController? && steps[i].at == at
    && var w := After(env, START, steps[..i]);
       var s := StoreAt(w, at);
       && w.ledger <= steps[i].call.now && C.Served(SettingAt(env, at), s, WithView(w, steps[i].call)).Ok?
       && s.config == Some(config) && a.id in s.attempts && E.SameSubject(s.attempts[a.id], a)
       && E.Timely(s, steps[i].call, a, C.Initiation)
  }

  /** The guardian signed the attempt's statement in some step. */
  ghost predicate Signed(env: Env, steps: seq<Step>, at: string, a: C.Attempt, g: string, config: C.Config) {
    exists i: nat ::
      i < |steps| && TimelyStep(env, steps, i, at, a, config) && E.Approves(steps[i].call, a.id, C.Initiation, g)
  }

  /** A proof of it was verified in some step. */
  ghost predicate Verified(env: Env, steps: seq<Step>, at: string, a: C.Attempt, nf: Bytes32, config: C.Config) {
    exists i: nat ::
      i < |steps| && TimelyStep(env, steps, i, at, a, config) && E.Proves(steps[i].call, a.id, C.Initiation, nf)
  }

  /** A timely call of a controller's own run is a timely step of the whole. */
  lemma TimelyInRun(env: Env, steps: seq<Step>, at: string, j: nat, a: C.Attempt, config: C.Config) returns (i: nat)
    requires var h := History(env, steps, at);
             && j < |h| && E.TimelyAt(SettingAt(env, at), h, j, a, C.Initiation)
             && E.Before(SettingAt(env, at), h, j).config == Some(config) && !h[j].SyncCall?
    ensures i < |steps| && TimelyStep(env, steps, i, at, a, config)
    ensures History(env, steps, at)[j] == WithView(After(env, START, steps[..i]), steps[i].call)
  {
    hide After, C.After, C.Served, History, DirectCall;
    i := HistoryStep(env, steps, at, j);
    StoreIsRun(env, steps[..i], at);
  }

  lemma SignedInRun(env: Env, steps: seq<Step>, at: string, a: C.Attempt, g: string, config: C.Config)
    requires E.ApprovedUnder(SettingAt(env, at), History(env, steps, at), a, g, config)
    ensures Signed(env, steps, at, a, g, config)
  {
    hide TimelyStep, History, After, E.TimelyAt;
    var h := History(env, steps, at);
    var j: nat :| j < |h| && E.TimelyAt(SettingAt(env, at), h, j, a, C.Initiation)
                  && E.Approves(h[j], a.id, C.Initiation, g)
                  && E.Before(SettingAt(env, at), h, j).config == Some(config);
    var i := TimelyInRun(env, steps, at, j, a, config);
    StepIsDirect(env, steps, i, at, a, config);
  }

  lemma VerifiedInRun(env: Env, steps: seq<Step>, at: string, a: C.Attempt, nf: Bytes32, config: C.Config)
    requires E.ProvedUnder(SettingAt(env, at), History(env, steps, at), a, nf, config)
    ensures Verified(env, steps, at, a, nf, config)
  {
    hide TimelyStep, History, After, E.TimelyAt;
    var h := History(env, steps, at);
    var j: nat :| j < |h| && E.TimelyAt(SettingAt(env, at), h, j, a, C.Initiation)
                  && E.Proves(h[j], a.id, C.Initiation, nf)
                  && E.Before(SettingAt(env, at), h, j).config == Some(config);
    var i := TimelyInRun(env, steps, at, j, a, config);
    StepIsDirect(env, steps, i, at, a, config);
  }

  lemma StepIsDirect(env: Env, steps: seq<Step>, i: nat, at: string, a: C.Attempt, config: C.Config)
    requires TimelyStep(env, steps, i, at, a, config)
    ensures i < |steps| && steps[i].AtController?
  {
  }

  /** As many distinct guardians as the enrolled quorum each signed the completed attempt's
      statement in an earlier step at the adopted controller, and a proof of it was verified
      there if one is asked for; under the configuration still in force, in time, and at least
      the delay before. */
  ghost predicate Evidenced(env: Env, steps: seq<Step>, k: nat)
    requires CompletesAt(env, steps, k)
  {
    var w := After(env, START, steps[..k]);
    && w.account.controller.Some?
    && var at, a := w.account.controller.value, CompletedAt(env, steps, k);
       && StoreAt(w, at).config.Some?
       && var config := StoreAt(w, at).config.value;
          && a.target == steps[k].doc && a.executableAfter <= steps[k].now < a.expiresAt
          && a.executableAfter == a.authorizedAt + config.delay && a.expiresAt == a.executableAfter + config.expiry
          && NoDuplicates(a.guardians) && C.AllEnrolled(config, a.guardians)
          && (config.guardians.Some? ==> |a.guardians| >= config.guardians.value.quorum)
          && (forall g :: g in a.guardians ==> Signed(env, steps[..k], at, a, g, config))
          && (config.zk ==> a.nullifier.Some? && Verified(env, steps[..k], at, a, a.nullifier.value, config))
  }

  /** Whoever completes a recovery, evidence is what authorizes it. */
  lemma CompletionNeedsEvidence(env: Env, steps: seq<Step>, k: nat)
    requires CompletesAt(env, steps, k)
    ensures Evidenced(env, steps, k)
  {
    hide After, C.After, StoresSound, A.Sound, GateMirrors, C.AuthorizedLive, CallOf, Signed, Verified, History,
      E.ApprovedUnder, E.ProvedUnder, E.Witnessed, NoDuplicates, C.AllEnrolled;
    var before := steps[..k];
    var w := After(env, START, before);
    RunSound(env, before);
    CompletionRests(env, w, steps[k]);
    var at, a := w.account.controller.value, CompletedAt(env, steps, k);
    var e, h, config := SettingAt(env, at), History(env, before, at), StoreAt(w, at).config.value;
    StoreIsRun(env, before, at);
    E.RunWitnessed(e, h, a.id);
    E.WitnessedUnder(e, h, a, config);
    forall g | g in a.guardians ensures Signed(env, before, at, a, g, config) {
      SignedInRun(env, before, at, a, g, config);
    }
    if a.nullifier.Some? { VerifiedInRun(env, before, at, a, a.nullifier.value, config); }
  }

  lemma RevocationCompletes(env: Env, steps: seq<Step>, k: nat)
    requires k < |steps|
    requires After(env, START, steps[..k+1]).account.revoked != After(env, START, steps[..k]).account.revoked
    ensures CompletesAt(env, steps, k)
  {
    hide A.Switches, Stores, DirectCall, Current, Adopted;
    var w := After(env, START, steps[..k]);
    assert steps[..k+1][..k] == steps[..k];
    LedgerIgnored(env, w, steps[k], Now(steps[k]));
  }

  /** Credentials are revoked only by completing an attempt with all its evidence. */
  lemma RevocationNeedsEvidence(env: Env, steps: seq<Step>, k: nat)
    requires k < |steps|
    requires After(env, START, steps[..k+1]).account.revoked != After(env, START, steps[..k]).account.revoked
    ensures CompletesAt(env, steps, k) && Evidenced(env, steps, k)
  {
    hide After, CompletesAt, Evidenced;
    RevocationCompletes(env, steps, k);
    CompletionNeedsEvidence(env, steps, k);
  }

  // ----- nothing comes back -----

  lemma {:induction false} RevokedGrows(env: Env, w: World, steps: seq<Step>)
    ensures w.account.revoked <= After(env, w, steps).account.revoked
  {
    hide CallOf, Stores, DirectCall;
    if steps != [] { RevokedGrows(env, w, steps[..|steps|-1]); }
  }

  /** A credential that is revoked at some point of a run is in no document applied then or
      later. */
  lemma NeverReturns(env: Env, steps: seq<Step>, k: nat, f: Fingerprint)
    requires k <= |steps| && f in After(env, START, steps[..k]).account.revoked
    ensures f !in After(env, START, steps).account.applied
  {
    hide After, Next, A.Sound, C.Sound;
    assert steps == steps[..k] + steps[k..];
    AfterSplit(env, START, steps[..k], steps[k..]);
    RevokedGrows(env, After(env, START, steps[..k]), steps[k..]);
    RunSound(env, steps);
    A.AppliedNotRevoked(After(env, START, steps).account, f);
  }
}
