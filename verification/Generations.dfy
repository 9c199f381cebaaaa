/** What the account's recovery generation counts (crates/perch-smart-account/src/lib.rs): the
    epochs that ended at all the controllers it ever used. */
module Generations {
  import opened Base
  import opened Lifecycle
  import A = Account
  import C = Controller

  function EpochAt(stores: map<string, C.Store>, at: string): nat {
    if at in stores then stores[at].epoch else 0
  }

  /** The epochs of some controllers, added up. */
  function Epochs(stores: map<string, C.Store>, ats: seq<string>): nat {
    if ats == [] then 0 else Epochs(stores, ats[..|ats|-1]) + EpochAt(stores, ats[|ats|-1])
  }

  lemma {:induction false} OneStored(stores: map<string, C.Store>, at: string, s: C.Store, ats: seq<string>)
    requires NoDuplicates(ats)
    ensures Epochs(stores[at := s], ats) ==
            Epochs(stores, ats) + if at in ats then s.epoch - EpochAt(stores, at) else 0
  {
    if ats != [] {
      var init, last := ats[..|ats|-1], ats[|ats|-1];
      OneStored(stores, at, s, init);
      assert ats == init + [last];
      assert at in ats <==> at in init || at == last;
      assert last !in init;
    }
  }

  // ----- one step -----

  /** A controller's answer ends an epoch unless nothing changed. */
  lemma SyncEpoch(s: C.Store, account: string, here: string, now: u32, ch: C.Change)
    requires C.RcvSync(s, account, here, now, ch).Ok?
    ensures var r := C.RcvSync(s, account, here, now, ch).value;
            r.store.epoch == s.epoch + if r.outcome.Unchanged? then 0 else 1
  {
    hide C.AuthorizedLive, C.Servable, C.WiringRefusal;
  }

  /** The step executes an upgrade at a controller. */
  predicate Upgrades(env: Env, w: World, st: Step) {
    && Now(st) >= w.ledger && st.AtController? && st.call.UpgradeCall?
    && C.UpgradeExecuted(StoreAt(w, st.at), st.call.now, st.call.recorded).Ok?
  }

  lemma DirectEpoch(e: C.Setting, s: C.Store, call: C.Call)
    requires !call.SyncCall?
    ensures C.Next(e, s, call).epoch == s.epoch +
            if call.UpgradeCall? && C.UpgradeExecuted(s, call.now, call.recorded).Ok? then 1 else 0
  {
    hide C.AuthorizedLive, C.Live, C.InitiationMet, C.CancellationMet, C.SourceOf;
  }

  /** An upgrade freezes nothing. */
  lemma UpgradeOpensNoGate(e: C.Setting, s: C.Store, call: C.Call)
    requires call.UpgradeCall?
    ensures GateCall(s, C.Next(e, s, call)).None?
  {
    hide C.AuthorizedLive;
  }

  lemma DirectStep(env: Env, w: World, st: Step, ats: seq<string>)
    requires st.AtController? && NoDuplicates(ats) && Now(st) >= w.ledger
    requires forall at :: at in Next(env, w, st).stores ==> at in ats
    ensures Epochs(Next(env, w, st).stores, ats) ==
            Epochs(w.stores, ats) + if Upgrades(env, w, st) then 1 else 0
    ensures Next(env, w, st).account == w.account
  {
    hide C.Next, C.UpgradeExecuted, GateCall, NoDuplicates;
    var at, s := st.at, StoreAt(w, st.at);
    LedgerIgnored(env, w, st, Now(st));
    UpgradeView(w, st.call);
    if !st.call.SyncCall? { DirectEpoch(SettingAt(env, at), s, WithView(w, st.call)); }
    if st.call.UpgradeCall? { UpgradeOpensNoGate(SettingAt(env, at), s, st.call); }
    if DirectCall(env, w, at, st.call).Some? {
      OneStored(w.stores, at, DirectCall(env, w, at, st.call).value, ats);
    }
  }

  lemma UpgradeView(w: World, call: C.Call)
    ensures call.UpgradeCall? <==> WithView(w, call).UpgradeCall?
    ensures call.UpgradeCall? ==> WithView(w, call) == call
    ensures call.SyncCall? <==> WithView(w, call).SyncCall?
  {
  }

  /** An applied document moves the generation by the epochs it ends. */
  lemma ApplyStep(env: Env, w: World, st: Step, ats: seq<string>)
    requires st.ApplyDoc? && NoDuplicates(ats) && Now(st) >= w.ledger
    requires forall at :: at in Next(env, w, st).stores ==> at in ats
    ensures Epochs(Next(env, w, st).stores, ats) - Epochs(w.stores, ats) ==
            Next(env, w, st).account.generation - w.account.generation
  {
    hide C.RcvSync, NoDuplicates, A.NextCompiled;
    LedgerIgnored(env, w, st, Now(st));
    if Accepted(env, w, st) {
      AcceptedAnswers(env, w, st);
      GenerationMoves(env, w, st);
      var cur, adopted, to := Current(env, w, st), Adopted(env, w, st), SwitchTo(env, w, st.doc);
      var one := if cur.Some? then w.stores[w.account.controller.value := cur.value.store] else w.stores;
      if cur.Some? {
        var at := w.account.controller.value;
        SyncEpoch(StoreAt(w, at), env.me, at, st.now, ChangeOf(env, st.doc, st.current));
        OneStored(w.stores, at, cur.value.store, ats);
        assert at in Next(env, w, st).stores;
      }
      if adopted.Some? {
        SyncEpoch(StoreAt(w, to.value), env.me, to.value, st.now, ChangeOf(env, st.doc, st.next));
        OneStored(one, to.value, adopted.value.store, ats);
        assert to.value in Next(env, w, st).stores;
      }
    }
  }

  /** One for each controller asked that did not answer with no change. */
  lemma GenerationMoves(env: Env, w: World, st: Step)
    requires st.ApplyDoc? && Accepted(env, w, st)
    ensures var n := A.Next(w.account, CallOf(env, w, st)).value;
            n.generation == w.account.generation
            + (if Current(env, w, st).Some? && !Current(env, w, st).value.outcome.Unchanged? then 1 else 0)
            + (if Adopted(env, w, st).Some? && !Adopted(env, w, st).value.outcome.Unchanged? then 1 else 0)
  {
    hide C.RcvSync, A.TransitionOk, A.LeafToInsert, A.LeafOf;
  }

  // ----- whole runs -----

  /** How many upgrades a run executed at controllers. */
  function UpgradesAlong(env: Env, steps: seq<Step>): nat {
    if steps == [] then 0
    else
      var init := steps[..|steps|-1];
      UpgradesAlong(env, init) + if Upgrades(env, After(env, START, init), steps[|steps|-1]) then 1 else 0
  }

  lemma StoresGrow(env: Env, w: World, st: Step)
    ensures forall at :: at in w.stores ==> at in Next(env, w, st).stores
  {
    hide C.Next, C.RcvSync, GateCall;
  }

  /** Conservation: along every run, the generation the account reached and the upgrades
      executed are together the epochs ended at all its controllers. So an epoch never ends
      without the account's counter moving, and the counter never moves for nothing. */
  lemma {:induction false} GenerationIsEpochs(env: Env, steps: seq<Step>, ats: seq<string>)
    requires NoDuplicates(ats) && forall at :: at in After(env, START, steps).stores ==> at in ats
    ensures Epochs(After(env, START, steps).stores, ats) ==
            After(env, START, steps).account.generation + UpgradesAlong(env, steps)
  {
    hide Next, Upgrades, NoDuplicates;
    if steps == [] {
      NoEpochs(ats);
    } else {
      var init, st := steps[..|steps|-1], steps[|steps|-1];
      var w := After(env, START, init);
      StoresGrow(env, w, st);
      GenerationIsEpochs(env, init, ats);
      if Now(st) < w.ledger {
        TooEarly(env, w, st);
      } else if st.AtController? {
        DirectStep(env, w, st, ats);
      } else {
        ApplyStep(env, w, st, ats);
        NoUpgrade(env, w, st);
      }
    }
  }

  lemma {:induction false} NoEpochs(ats: seq<string>)
    ensures Epochs(map[], ats) == 0
  {
    if ats != [] { NoEpochs(ats[..|ats|-1]); }
  }

  lemma TooEarly(env: Env, w: World, st: Step)
    requires Now(st) < w.ledger
    ensures Next(env, w, st) == w && !Upgrades(env, w, st)
  {
  }

  lemma NoUpgrade(env: Env, w: World, st: Step)
    requires st.ApplyDoc?
    ensures !Upgrades(env, w, st)
  {
  }
}
