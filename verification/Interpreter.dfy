/** The shared interpreter contract and its per-account store
    (crates/perch-interpreter/src/lib.rs). */
module Interpreter {
  import opened Base
  import opened Program

  datatype Error = Denied | NotInstalled | AlreadyInstalled | InvalidProgram | Unauthorized

  /** One account's rule. */
  datatype Key = Key(account: Address, rule: u32)

  type Store = map<Key, InstallParams>

  /** What the contract can be asked; the account whose authorization is needed is the
      key's. */
  datatype Call =
    | Install(key: Key, params: InstallParams)
    | Uninstall(key: Key)
    | Enforce(key: Key, context: Context, signerCount: u32, ledger: u32)

  function Inputs(call: Call): EvalInputs
    requires call.Enforce?
  {
    EvalInputs(call.context, call.signerCount, call.key.account, call.ledger)
  }

  /** One call, with `auth` the accounts that authorized it: the new store, or the error
      that rolls the call back. */
  ghost function Transition(store: Store, auth: set<Address>, call: Call): Result<Store, Error> {
    if call.key.account !in auth then Err(Unauthorized)
    else match call
    case Install(key, params) =>
      if key in store then Err(AlreadyInstalled)
      else if !Accepted(params.program) then Err(InvalidProgram)
      else Ok(store[key := params])
    case Uninstall(key) =>
      if key !in store then Err(NotInstalled) else Ok(store - {key})
    case Enforce(key, _, signerCount, _) =>
      if signerCount == 0 then Err(Denied)
      else if key !in store then Err(NotInstalled)
      else if OpsVerdict(Inputs(call), store[key].program.ops) != True then Err(Denied)
      else Ok(store)
  }

  ghost predicate AllAccepted(store: Store) {
    forall key :: key in store ==> Accepted(store[key].program)
  }

  /** The contract's persistent storage. A panicking entry point returns the error and
      leaves the storage as it was. */
  class Contract {
    var store: Store

    ghost predicate Valid() reads this { AllAccepted(store) }

    constructor ()
      ensures Valid() && store == map[]
    {
      store := map[];
    }

    method Install(auth: set<Address>, account: Address, rule: u32, params: InstallParams)
      returns (r: Result<(), Error>)
      requires Valid()
      modifies this
      ensures Valid()
      ensures match Transition(old(store), auth, Call.Install(Key(account, rule), params))
              case Ok(store') => r.Ok? && store == store'
              case Err(e) => r == Err(e) && store == old(store)
    {
      if account !in auth { return Err(Unauthorized); }
      var key := Key(account, rule);
      if key in store { return Err(AlreadyInstalled); }
      var v := Validate(params.program);
      if v.Err? { return Err(InvalidProgram); }
      store := store[key := params];
      return Ok(());
    }

    method Uninstall(auth: set<Address>, account: Address, rule: u32) returns (r: Result<(), Error>)
      requires Valid()
      modifies this
      ensures Valid()
      ensures match Transition(old(store), auth, Call.Uninstall(Key(account, rule)))
              case Ok(store') => r.Ok? && store == store'
              case Err(e) => r == Err(e) && store == old(store)
    {
      if account !in auth { return Err(Unauthorized); }
      var key := Key(account, rule);
      if key !in store { return Err(NotInstalled); }
      store := store - {key};
      return Ok(());
    }

    /** Succeeds exactly when the account authorized, a program is installed, someone
        signed, and the program's expression tree evaluates to `True`. */
    method Enforce(auth: set<Address>, account: Address, rule: u32, context: Context, signers: seq<string>, ledger: u32)
      returns (r: Result<(), Error>)
      requires Valid() && |signers| <= U32_MAX
      ensures match Transition(store, auth, Call.Enforce(Key(account, rule), context, |signers|, ledger))
              case Ok(store') => r.Ok? && store == store'
              case Err(e) => r == Err(e)
      ensures r.Ok? <==>
              && account in auth && Key(account, rule) in store && signers != []
              && exists t :: Spells(store[Key(account, rule)].program.ops, t) &&
                             TreeVerdict(EvalInputs(context, |signers|, account, ledger), t) == True
    {
      if account !in auth { return Err(Unauthorized); }
      if signers == [] { return Err(Denied); }
      var key := Key(account, rule);
      if key !in store { return Err(NotInstalled); }
      var params := store[key];
      var v := Eval(params.program, EvalInputs(context, |signers|, account, ledger));
      assert Accepted(params.program);
      if v != True { return Err(Denied); }
      return Ok(());
    }
  }

  // ----- runs -----

  datatype Event = Event(auth: set<Address>, call: Call)

  /** The store after a run; a failed call leaves it unchanged. */
  ghost function After(store: Store, run: seq<Event>): Store {
    if run == [] then store
    else
      var before := After(store, run[..|run|-1]);
      var e := run[|run|-1];
      match Transition(before, e.auth, e.call) case Ok(next) => next case Err(_) => before
  }

  /** In every reachable state every stored program validates. */
  lemma {:induction false} ReachableAccepted(store: Store, run: seq<Event>)
    requires AllAccepted(store)
    ensures AllAccepted(After(store, run))
  {
    hide Accepted, OpsVerdict;
    if run != [] { ReachableAccepted(store, run[..|run|-1]); }
  }

  /** A step that changes an entry is an authorized install or uninstall of that very key by
      its own account, and it never replaces one program by another. */
  lemma StepTouchesOwnEntry(store: Store, e: Event, key: Key)
    ensures var next := After(store, [e]);
            || ((key in store <==> key in next) && (key in store ==> next[key] == store[key]))
            || (e.call.key == key && key.account in e.auth &&
                ((e.call.Install? && key !in store && key in next && next[key] == e.call.params)
                 || (e.call.Uninstall? && key in store && key !in next)))
  {
    hide Accepted, OpsVerdict;
    assert [e][..0] == [];
  }

  /** The run contains no authorized install or uninstall of `key` by its account. */
  ghost predicate Leaves(run: seq<Event>, key: Key) {
    forall k :: 0 <= k < |run| ==>
      !(run[k].call.key == key && key.account in run[k].auth && !run[k].call.Enforce?)
  }

  lemma AfterStep(store: Store, run: seq<Event>, e: Event)
    ensures After(store, run + [e]) == After(After(store, run), [e])
  {
    assert (run + [e])[..|run|] == run;
    assert [e][..0] == [];
  }

  /** Isolation: whatever other accounts do, in any interleaving, an entry stays exactly as
      it was until its own account authorizes a change to it. */
  lemma {:induction false} EntryIsolated(store: Store, run: seq<Event>, key: Key)
    requires Leaves(run, key)
    ensures key in store <==> key in After(store, run)
    ensures key in store ==> After(store, run)[key] == store[key]
  {
    if run != [] {
      var init, e := run[..|run|-1], run[|run|-1];
      EntryIsolated(store, init, key);
      assert run == init + [e];
      AfterStep(store, init, e);
      StepTouchesOwnEntry(After(store, init), e, key);
    }
  }

  /** Between two different programs under one key lies the account's own uninstall. */
  lemma {:induction false} NeverOverwritten(store: Store, run: seq<Event>, key: Key) returns (k: nat)
    requires key in store && key in After(store, run) && After(store, run)[key] != store[key]
    ensures k < |run| && run[k].call == Uninstall(key) && key.account in run[k].auth
    ensures key !in After(store, run[..k+1])
  {
    var init, e := run[..|run|-1], run[|run|-1];
    assert run == init + [e];
    AfterStep(store, init, e);
    StepTouchesOwnEntry(After(store, init), e, key);
    if key in After(store, init) {
      k := NeverOverwritten(store, init, key);
      assert init[..k+1] == run[..k+1];
    } else {
      k := RemovedBy(store, init, key);
      assert init[..k+1] == run[..k+1];
    }
  }

  lemma {:induction false} RemovedBy(store: Store, run: seq<Event>, key: Key) returns (k: nat)
    requires key in store && key !in After(store, run)
    ensures k < |run| && run[k].call == Uninstall(key) && key.account in run[k].auth
    ensures key !in After(store, run[..k+1])
  {
    var init, e := run[..|run|-1], run[|run|-1];
    assert run == init + [e];
    AfterStep(store, init, e);
    StepTouchesOwnEntry(After(store, init), e, key);
    if key in After(store, init) {
      k := |run| - 1;
      assert run[..k+1] == run;
    } else {
      k := RemovedBy(store, init, key);
      assert init[..k+1] == run[..k+1];
    }
  }

  /** In every state reachable from the empty store, an enforcement succeeds if and only if
      its account authorized it, a program is installed, at least one signer authenticated
      and the program's unique expression tree evaluates to `True`. */
  lemma EnforceIff(run: seq<Event>, auth: set<Address>, call: Call)
    requires call.Enforce?
    ensures var store := After(map[], run);
            Transition(store, auth, call).Ok? <==>
            && call.key.account in auth && call.key in store && call.signerCount >= 1
            && exists t :: Spells(store[call.key].program.ops, t) && TreeVerdict(Inputs(call), t) == True
  {
    hide TreeVerdict, OpsVerdict, Spells;
    var store := After(map[], run);
    ReachableAccepted(map[], run);
    if call.key in store {
      var ops := store[call.key].program.ops;
      assert Accepted(store[call.key].program);
      forall t | Spells(ops, t) ensures TreeVerdict(Inputs(call), t) == OpsVerdict(Inputs(call), ops) {
        VerdictOfTree(Inputs(call), ops, t);
      }
    }
  }
}
