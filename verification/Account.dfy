/** The account's credential and enrollment history across `apply_doc` calls
    (crates/perch-smart-account/src/lib.rs, crates/perch-recovery-interface/src/config.rs). */
module Account {
  import opened Base
  import opened Field
  import opened Revocation

  // ----- the ZK factor -----

  datatype CompiledZkFactor = CompiledZkFactor(adapter: string, circuitId: Bytes32, pool: string, enrollmentId: Bytes32,
                               commitment: Bytes32)

  datatype Leaf = Leaf(pool: string, enrollmentId: Bytes32, commitment: Bytes32)

  function LeafOf(z: CompiledZkFactor): Leaf {
    Leaf(z.pool, z.enrollmentId, z.commitment)
  }

  /** Unchanged as a whole, or under a new enrollment id; adding and removing are free. */
  predicate TransitionOk(was: Option<CompiledZkFactor>, next: Option<CompiledZkFactor>) {
    was.Some? && next.Some? ==> was == next || was.value.enrollmentId != next.value.enrollmentId
  }

  function LeafToInsert(was: Option<CompiledZkFactor>, next: Option<CompiledZkFactor>): Option<CompiledZkFactor> {
    match (was, next)
    case (_, None) => None
    case (Some(o), Some(n)) => if o.enrollmentId == n.enrollmentId then None else next
    case (None, Some(_)) => next
  }

  // ----- one apply -----

  datatype State = State(
    applied: seq<Fingerprint>,
    revoked: set<Fingerprint>,
    factor: Option<CompiledZkFactor>,
    enrolledIds: set<Bytes32>,
    inserted: set<Leaf>,
    controller: Option<string>,
    generation: nat,
    revision: nat)

  datatype ApplyError =
    | Unauthorized | StaleRevision | CompilerRefused | AdminLockout | RevokedCredential | ZkFactorChangedInPlace
    | EnrollmentReused | ControllerRefused | PoolRefused | InvalidCredential

  datatype Recovery = Recovery(controller: string, zk: Option<CompiledZkFactor>)

  /** What the compiler makes of a document. */
  datatype Compiled = Compiled(adminSurvives: bool, fingerprints: seq<Fingerprint>, recovery: Option<Recovery>)

  /** A controller's answer. A completion hands back what its source had in the replaced
      slots, or a credential without a fingerprint. */
  datatype Sync = Unchanged | Enrolled | Reconfigured | Removed | Completed(replaced: Option<seq<Fingerprint>>)

  /** One call: whether the account authorized it, the revision it expects, the compiler's
      result, and what the adopted controller, the document's own one and the membership
      pool answer if they are asked. */
  datatype Apply = Apply(
    authorized: bool, expected: Option<nat>, compiled: Option<Compiled>, current: Option<Sync>, next: Option<Sync>,
    poolAccepts: bool)

  const INITIAL := State([], {}, None, {}, {}, None, 0, 0)

  function ZkOf(c: Compiled): Option<CompiledZkFactor> {
    if c.recovery.Some? then c.recovery.value.zk else None
  }

  function ControllerOf(c: Compiled): Option<string> {
    if c.recovery.Some? then Some(c.recovery.value.controller) else None
  }

  /** The document names a controller that is not the adopted one. */
  predicate Switches(s: State, c: Compiled) {
    c.recovery.Some? && s.controller != ControllerOf(c)
  }

  /** Only the adopted controller can report a completion. */
  predicate Completes(s: State, a: Apply) {
    s.controller.Some? && a.current.Some? && a.current.value.Completed?
  }

  function Bump(asked: bool, answer: Option<Sync>): nat {
    if asked && answer.Some? && !answer.value.Unchanged? then 1 else 0
  }

  function Next(s: State, a: Apply): Result<State, ApplyError> {
    if !a.authorized then Err(Unauthorized)
    else if a.expected.Some? && a.expected.value != s.revision then Err(StaleRevision)
    else if a.compiled.None? then Err(CompilerRefused)
    else if !a.compiled.value.adminSurvives then Err(AdminLockout)
    else NextCompiled(s, a, a.compiled.value)
  }

  function NextCompiled(s: State, a: Apply, c: Compiled): Result<State, ApplyError> {
    var leaf := LeafToInsert(s.factor, ZkOf(c));
    if !NoneIn(c.fingerprints, s.revoked) then Err(RevokedCredential)
    else if !TransitionOk(s.factor, ZkOf(c)) then Err(ZkFactorChangedInPlace)
    else if leaf.Some? && leaf.value.enrollmentId in s.enrolledIds then Err(EnrollmentReused)
    else if (s.controller.Some? && a.current.None?) || (Switches(s, c) && a.next.None?) then Err(ControllerRefused)
    else if leaf.Some? && !a.poolAccepts then Err(PoolRefused)
    else if Completes(s, a) && a.current.value.replaced.None? then Err(InvalidCredential)
    else Ok(State(
      c.fingerprints,
      if Completes(s, a) then s.revoked + Revoked(a.current.value.replaced.value, s.applied, c.fingerprints)
        else s.revoked,
      ZkOf(c),
      if leaf.Some? then s.enrolledIds + {leaf.value.enrollmentId} else s.enrolledIds,
      if leaf.Some? then s.inserted + {LeafOf(leaf.value)} else s.inserted,
      ControllerOf(c),
      s.generation + Bump(s.controller.Some?, a.current) + Bump(Switches(s, c), a.next),
      s.revision + 1))
  }

  class AccountStore {
    var applied: seq<Fingerprint>
    var revoked: set<Fingerprint>
    var factor: Option<CompiledZkFactor>
    var enrolledIds: set<Bytes32>
    var inserted: set<Leaf>
    var controller: Option<string>
    var generation: nat
    var revision: nat

    ghost function Snapshot(): State reads this {
      State(applied, revoked, factor, enrolledIds, inserted, controller, generation, revision)
    }

    constructor ()
      ensures Snapshot() == INITIAL
    {
      applied, revoked, factor, enrolledIds, inserted := [], {}, None, {}, {};
      controller, generation, revision := None, 0, 0;
    }

    method RevokeAll(fs: seq<Fingerprint>)
      modifies this`revoked
      ensures revoked == old(revoked) + Elements(fs)
    {
      for k := 0 to |fs|
        invariant revoked == old(revoked) + Elements(fs[..k])
      {
        ElementsAppend(fs[..k], fs[k]);
        assert fs[..k] + [fs[k]] == fs[..k+1];
        revoked := revoked + {fs[k]};
      }
      assert fs[..|fs|] == fs;
    }

    /** Ask the adopted controller, then the document's own one if it is another. */
    method SyncControllers(a: Apply, c: Compiled) returns (r: Result<nat, ApplyError>)
      ensures r == if (controller.Some? && a.current.None?) || (Switches(Snapshot(), c) && a.next.None?)
              then Err(ControllerRefused)
                   else Ok(generation + Bump(controller.Some?, a.current) + Bump(Switches(Snapshot(), c), a.next))
    {
      var next := generation;
      if controller.Some? {
        if a.current.None? { return Err(ControllerRefused); }
        if !a.current.value.Unchanged? { next := next + 1; }
      }
      if c.recovery.Some? && controller != Some(c.recovery.value.controller) {
        if a.next.None? { return Err(ControllerRefused); }
        if !a.next.value.Unchanged? { next := next + 1; }
      }
      return Ok(next);
    }

    /** Every reason to refuse a call, in order; otherwise the generation it leads to. */
    method Check(a: Apply) returns (r: Result<nat, ApplyError>)
      ensures match Next(Snapshot(), a) case Ok(s) => r == Ok(s.generation) case Err(e) => r == Err(e)
    {
      hide NoneIn, TransitionOk, LeafToInsert, Bump, Revoked, LeafOf;
      if !a.authorized { return Err(Unauthorized); }
      if a.expected.Some? && a.expected.value != revision { return Err(StaleRevision); }
      if a.compiled.None? { return Err(CompilerRefused); }
      var c := a.compiled.value;
      if !c.adminSurvives { return Err(AdminLockout); }
      var clear := CheckNoneIn(c.fingerprints, revoked);
      if !clear { return Err(RevokedCredential); }
      if !TransitionOk(factor, ZkOf(c)) { return Err(ZkFactorChangedInPlace); }
      var insert := LeafToInsert(factor, ZkOf(c));
      if insert.Some? && insert.value.enrollmentId in enrolledIds { return Err(EnrollmentReused); }
      r := SyncControllers(a, c);
      if r.Ok? && insert.Some? && !a.poolAccepts { return Err(PoolRefused); }
      if r.Ok? && controller.Some? && a.current.value == Completed(None) { return Err(InvalidCredential); }
    }

    /** Apply a document; a refused call changes nothing. */
    method ApplyDoc(a: Apply) returns (r: Result<(), ApplyError>)
      modifies this
      ensures match Next(old(Snapshot()), a)
              case Ok(s) => r.Ok? && Snapshot() == s
              case Err(e) => r == Err(e) && Snapshot() == old(Snapshot())
    {
      hide NoneIn, TransitionOk, LeafToInsert, Bump, LeafOf;
      var checked := Check(a);
      if checked.Err? { return Err(checked.error); }
      var c := a.compiled.value;
      var insert := LeafToInsert(factor, ZkOf(c));
      if insert.Some? {
        inserted := inserted + {LeafOf(insert.value)};
        enrolledIds := enrolledIds + {insert.value.enrollmentId};
      }
      factor := ZkOf(c);
      if controller.Some? && a.current.value.Completed? {
        var fs := Revocations(a.current.value.replaced.value, applied, c.fingerprints);
        RevokeAll(fs);
      }
      controller, generation := ControllerOf(c), checked.value;
      applied := c.fingerprints;
      revision := revision + 1;
      return Ok(());
    }
  }

  lemma ElementsAppend(fs: seq<Fingerprint>, f: Fingerprint)
    ensures Elements(fs + [f]) == Elements(fs) + {f}
  {
  }

  // ----- whole runs -----

  /** What every reachable state satisfies. */
  ghost predicate Sound(s: State) {
    && Elements(s.applied) !! s.revoked
    && (s.factor.Some? ==> LeafOf(s.factor.value) in s.inserted)
    && (forall l :: l in s.inserted ==> l.enrollmentId in s.enrolledIds)
    && (forall id :: id in s.enrolledIds ==> exists l :: l in s.inserted && l.enrollmentId == id)
    && (forall l, m :: l in s.inserted && m in s.inserted && l.enrollmentId == m.enrollmentId ==> l == m)
  }

  /** If the call completes an attempt, the controller let that attempt begin: the
      credentials it replaces leave. */
  predicate Declared(s: State, a: Apply) {
    Completes(s, a) && a.current.value.replaced.Some? && a.compiled.Some? ==>
      ReplacedLeave(a.current.value.replaced.value, a.compiled.value.fingerprints)
  }

  /** Every call of the run is let through in that sense. */
  ghost predicate LetThrough(run: seq<Apply>) {
    forall k :: 0 <= k < |run| ==> Declared(After(INITIAL, run[..k]), run[k])
  }

  function After(s: State, run: seq<Apply>): State {
    if run == [] then s
    else
      var before := After(s, run[..|run|-1]);
      match Next(before, run[|run|-1]) case Ok(next) => next case Err(_) => before
  }

  lemma EnrollmentStep(s: State, a: Apply)
    requires Sound(s) && Next(s, a).Ok?
    ensures var n := Next(s, a).value;
            && (n.factor.Some? ==> LeafOf(n.factor.value) in n.inserted)
            && (forall l :: l in n.inserted ==> l.enrollmentId in n.enrolledIds)
            && (forall l, m :: l in n.inserted && m in n.inserted && l.enrollmentId == m.enrollmentId ==> l == m)
  {
  }

  lemma IdsInserted(s: State, a: Apply)
    requires Sound(s) && Next(s, a).Ok?
    ensures var n := Next(s, a).value;
            forall id :: id in n.enrolledIds ==> exists l :: l in n.inserted && l.enrollmentId == id
  {
    var n, leaf := Next(s, a).value, LeafToInsert(s.factor, ZkOf(a.compiled.value));
    forall id | id in n.enrolledIds ensures exists l :: l in n.inserted && l.enrollmentId == id {
      if id in s.enrolledIds {
        var l :| l in s.inserted && l.enrollmentId == id;
        assert l in n.inserted;
      } else {
        assert LeafOf(leaf.value) in n.inserted;
      }
    }
  }

  /** What an account accepts, from any sound state: an authorized call with the expected
      revision, a document that compiles and keeps an admin, no revoked credential, a ZK
      factor that is absent, unchanged, or under an id never enrolled before that the pool
      accepts, and no refusal by a controller it has or adopts. An accepted document is what
      is then applied, and a new factor's commitment is inserted in its own pool. */
  lemma AcceptedIff(s: State, a: Apply)
    requires Sound(s)
    ensures Next(s, a).Ok? <==>
            && a.authorized && (a.expected.Some? ==> a.expected.value == s.revision)
            && a.compiled.Some? && a.compiled.value.adminSurvives
            && Elements(a.compiled.value.fingerprints) !! s.revoked
            && (var zk := ZkOf(a.compiled.value); zk.Some? && zk != s.factor ==>
                  zk.value.enrollmentId !in s.enrolledIds && a.poolAccepts)
            && (s.controller.Some? ==> a.current.Some? && a.current.value != Completed(None))
            && (Switches(s, a.compiled.value) ==> a.next.Some?)
    ensures Next(s, a).Ok? ==>
            && Next(s, a).value.applied == a.compiled.value.fingerprints
            && Next(s, a).value.factor == ZkOf(a.compiled.value)
            && Next(s, a).value.controller == ControllerOf(a.compiled.value)
    ensures Next(s, a).Ok? ==>
              var zk, n := ZkOf(a.compiled.value), Next(s, a).value;
              if zk.Some? && zk != s.factor then
                && n.inserted == s.inserted + {Leaf(zk.value.pool, zk.value.enrollmentId, zk.value.commitment)}
                && n.enrolledIds == s.enrolledIds + {zk.value.enrollmentId}
              else n.inserted == s.inserted && n.enrolledIds == s.enrolledIds
  {
    if a.compiled.Some? {
      var fs := a.compiled.value.fingerprints;
      if !NoneIn(fs, s.revoked) {
        var i :| 0 <= i < |fs| && fs[i] in s.revoked;
        assert fs[i] in Elements(fs);
      }
    }
  }

  /** One call keeps the invariant exactly when the credentials its completion replaces
      leave; a call that completes nothing always keeps it. */
  lemma StepSoundIff(s: State, a: Apply)
    requires Sound(s) && Next(s, a).Ok?
    ensures Sound(Next(s, a).value) <==> Declared(s, a)
  {
    hide LeafToInsert, TransitionOk;
    EnrollmentStep(s, a);
    IdsInserted(s, a);
    var n := Next(s, a).value;
    if Completes(s, a) { LeaveIff(a.current.value.replaced.value, s.applied, a.compiled.value.fingerprints); }
    assert Elements(n.applied) !! n.revoked <==> Declared(s, a);
  }

  /** Along every run of let-through calls: no applied credential is revoked, and the
      enrolled factor's leaf has always been inserted, under an id used for no other leaf. */
  lemma {:induction false} RunSound(run: seq<Apply>)
    requires LetThrough(run)
    ensures Sound(After(INITIAL, run))
  {
    hide Next, Declared, Sound;
    if run == [] {
      InitialSound();
    } else {
      var init := run[..|run|-1];
      assert LetThrough(init) by {
        assert forall k :: 0 <= k < |init| ==> init[..k] == run[..k] && init[k] == run[k];
      }
      RunSound(init);
      var s, a := After(INITIAL, init), run[|run|-1];
      assert Declared(s, a);
      if Next(s, a).Ok? { StepSoundIff(s, a); }
    }
  }

  lemma InitialSound()
    ensures Sound(INITIAL)
  {
  }

  /** Nothing leaves the revoked, enrolled or inserted sets, and no counter goes back. */
  lemma {:induction false} HistoryGrows(s: State, run: seq<Apply>)
    ensures s.revoked <= After(s, run).revoked
    ensures s.enrolledIds <= After(s, run).enrolledIds && s.inserted <= After(s, run).inserted
    ensures s.generation <= After(s, run).generation && s.revision <= After(s, run).revision
  {
    if run != [] { HistoryGrows(s, run[..|run|-1]); }
  }

  lemma {:induction false} AfterSplit(s: State, a: seq<Apply>, b: seq<Apply>)
    ensures After(s, a + b) == After(After(s, a), b)
  {
    hide Next;
    if b == [] {
      assert a + b == a;
    } else {
      AfterSplit(s, a, b[..|b|-1]);
      assert (a + b)[..|a + b|-1] == a + b[..|b|-1];
    }
  }

  /** What a completing call revokes. */
  ghost predicate CallRevokes(s: State, a: Apply, f: Fingerprint) {
    && Next(s, a).Ok? && Completes(s, a)
    && f in Revoked(a.current.value.replaced.value, s.applied, a.compiled.value.fingerprints)
  }

  /** A credential that a completion replaced, or dropped from the current document, is in
      no document applied at or after that completion. */
  lemma NeverReturns(run: seq<Apply>, k: nat, f: Fingerprint)
    requires LetThrough(run) && k < |run| && CallRevokes(After(INITIAL, run[..k]), run[k], f)
    ensures f !in After(INITIAL, run).applied
  {
    hide Sound, After, Next, Revoked, LetThrough;
    var s := After(INITIAL, run[..k]);
    CompletionRevokes(s, run[k], f);
    AfterStep(INITIAL, run, k);
    AfterSplit(INITIAL, run[..k+1], run[k+1..]);
    assert run[..k+1] + run[k+1..] == run;
    HistoryGrows(After(INITIAL, run[..k+1]), run[k+1..]);
    RunSound(run);
    AppliedNotRevoked(After(INITIAL, run), f);
  }

  lemma CompletionRevokes(s: State, a: Apply, f: Fingerprint)
    requires CallRevokes(s, a, f)
    ensures Next(s, a).Ok? && f in Next(s, a).value.revoked
  {
  }

  lemma AfterStep(s: State, run: seq<Apply>, k: nat)
    requires k < |run| && Next(After(s, run[..k]), run[k]).Ok?
    ensures After(s, run[..k+1]) == Next(After(s, run[..k]), run[k]).value
  {
    hide Next;
    assert run[..k+1][..k] == run[..k];
  }

  lemma AppliedNotRevoked(s: State, f: Fingerprint)
    requires Sound(s) && f in s.revoked
    ensures f !in s.applied
  {
    assert f in s.applied ==> f in Elements(s.applied);
  }

  /** A step that keeps the enrollment id keeps the whole factor and inserts nothing. */
  lemma SameIdInsertsNothing(s: State, a: Apply)
    requires Next(s, a).Ok? && s.factor.Some? && ZkOf(a.compiled.value).Some?
    requires s.factor.value.enrollmentId == ZkOf(a.compiled.value).value.enrollmentId
    ensures ZkOf(a.compiled.value) == s.factor
    ensures Next(s, a).value.inserted == s.inserted && Next(s, a).value.enrolledIds == s.enrolledIds
  {
  }

  // ----- revisions -----

  /** A run that leaves the revision where it was changed nothing. */
  lemma {:induction false} SameRevisionSameState(s: State, run: seq<Apply>)
    requires After(s, run).revision == s.revision
    ensures After(s, run) == s
  {
    if run != [] {
      var init := run[..|run|-1];
      HistoryGrows(s, init);
      SameRevisionSameState(s, init);
    }
  }

  /** No lost update: a call accepted with an expected revision is applied over exactly the
      state that had that revision, whatever calls were made since. */
  lemma NoLostUpdate(s: State, run: seq<Apply>, j: nat, k: nat)
    requires j <= k < |run| && run[k].expected == Some(After(s, run[..j]).revision)
    requires Next(After(s, run[..k]), run[k]).Ok?
    ensures After(s, run[..k]) == After(s, run[..j])
  {
    hide After;
    assert run[..k] == run[..j] + run[j..k];
    AfterSplit(s, run[..j], run[j..k]);
    SameRevisionSameState(After(s, run[..j]), run[j..k]);
  }
}
