/** Which credentials a completed recovery revokes
    (crates/perch-recovery-interface/src/credential.rs). */
module Revocation {
  import opened Base
  import opened Field

  /** The digest of a credential over its verifier's canonical key. */
  type Fingerprint = Bytes32

  function Elements<T(==)>(fs: seq<T>): set<T> {
    set f | f in fs
  }

  /** Each element once, where it first occurs. */
  function FirstSeen<T(==)>(fs: seq<T>): seq<T> {
    if fs == [] then []
    else
      var init := FirstSeen(fs[..|fs|-1]);
      var f := fs[|fs|-1];
      if f in init then init else init + [f]
  }

  function Without<T(==)>(fs: seq<T>, kept: seq<T>): seq<T> {
    if fs == [] then []
    else
      var init := Without(fs[..|fs|-1], kept);
      var f := fs[|fs|-1];
      if f in kept then init else init + [f]
  }

  lemma {:induction false} FirstSeenElements<T>(fs: seq<T>)
    ensures NoDuplicates(FirstSeen(fs))
    ensures forall f :: f in FirstSeen(fs) <==> f in fs
  {
    if fs != [] {
      FirstSeenElements(fs[..|fs|-1]);
      assert fs == fs[..|fs|-1] + [fs[|fs|-1]];
    }
  }

  lemma {:induction false} WithoutElements<T>(fs: seq<T>, kept: seq<T>)
    ensures forall f :: f in Without(fs, kept) <==> f in fs && f !in kept
  {
    if fs != [] {
      WithoutElements(fs[..|fs|-1], kept);
      assert fs == fs[..|fs|-1] + [fs[|fs|-1]];
    }
  }

  lemma FirstSeenAppend<T>(fs: seq<T>, f: T)
    ensures FirstSeen(fs + [f]) == if f in fs then FirstSeen(fs) else FirstSeen(fs) + [f]
  {
    assert (fs + [f])[..|fs|] == fs;
    FirstSeenElements(fs);
  }

  lemma WithoutAppend<T>(fs: seq<T>, f: T, kept: seq<T>)
    ensures Without(fs + [f], kept) == if f in kept then Without(fs, kept) else Without(fs, kept) + [f]
  {
    assert (fs + [f])[..|fs|] == fs;
  }

  /** One step of each loop. */
  lemma ReplacedStep<T>(replaced: seq<T>, k: nat)
    requires k < |replaced|
    ensures FirstSeen(replaced[..k+1]) ==
            var out := FirstSeen(replaced[..k]); if replaced[k] in out then out else out + [replaced[k]]
  {
    FirstSeenAppend(replaced[..k], replaced[k]);
    FirstSeenElements(replaced[..k]);
    assert replaced[..k] + [replaced[k]] == replaced[..k+1];
  }

  lemma CurrentStep<T>(replaced: seq<T>, current: seq<T>, target: seq<T>, k: nat)
    requires k < |current|
    ensures FirstSeen(replaced + Without(current[..k+1], target)) ==
            var out := FirstSeen(replaced + Without(current[..k], target));
            if current[k] in target || current[k] in out then out else out + [current[k]]
  {
    hide FirstSeen, Without;
    var before := replaced + Without(current[..k], target);
    FirstSeenAppend(before, current[k]);
    FirstSeenElements(before);
    WithoutAppend(current[..k], current[k], target);
    assert current[..k] + [current[k]] == current[..k+1];
    assert before + [current[k]] == replaced + (Without(current[..k], target) + [current[k]]);
  }

  /** Duplicate-free, in first-seen order, and as a set exactly what was replaced together
      with what the target drops from the current document. */
  method Revocations(replaced: seq<Fingerprint>, current: seq<Fingerprint>, target: seq<Fingerprint>)
    returns (out: seq<Fingerprint>)
    ensures out == FirstSeen(replaced + Without(current, target))
    ensures NoDuplicates(out)
    ensures Elements(out) == Elements(replaced) + (Elements(current) - Elements(target))
  {
    hide FirstSeen, Without, Elements;
    assert FirstSeen<Fingerprint>([]) == [] && Without<Fingerprint>([], target) == [] by { Empties(target); }
    out := [];
    for k := 0 to |replaced|
      invariant out == FirstSeen(replaced[..k])
    {
      ReplacedStep(replaced, k);
      if replaced[k] !in out { out := out + [replaced[k]]; }
    }
    assert replaced[..|replaced|] == replaced;
    assert replaced + [] == replaced;
    for k := 0 to |current|
      invariant out == FirstSeen(replaced + Without(current[..k], target))
    {
      CurrentStep(replaced, current, target, k);
      if current[k] !in target && current[k] !in out { out := out + [current[k]]; }
    }
    assert current[..|current|] == current;
    FirstSeenElements(replaced + Without(current, target));
    RevokedSet(replaced, current, target);
  }

  lemma Empties(target: seq<Fingerprint>)
    ensures FirstSeen<Fingerprint>([]) == [] && Without<Fingerprint>([], target) == []
  {
  }

  function Revoked(replaced: seq<Fingerprint>, current: seq<Fingerprint>, target: seq<Fingerprint>): set<Fingerprint> {
    Elements(replaced) + (Elements(current) - Elements(target))
  }

  lemma RevokedSet(replaced: seq<Fingerprint>, current: seq<Fingerprint>, target: seq<Fingerprint>)
    ensures Elements(FirstSeen(replaced + Without(current, target))) == Revoked(replaced, current, target)
  {
    FirstSeenElements(replaced + Without(current, target));
    WithoutElements(current, target);
  }

  predicate ReplacedLeave(replaced: seq<Fingerprint>, target: seq<Fingerprint>) {
    forall i :: 0 <= i < |replaced| ==> replaced[i] !in target
  }

  predicate NoneIn(fs: seq<Fingerprint>, revoked: set<Fingerprint>) {
    forall i :: 0 <= i < |fs| ==> fs[i] !in revoked
  }

  method CheckNoneIn(fs: seq<Fingerprint>, revoked: set<Fingerprint>) returns (ok: bool)
    ensures ok <==> NoneIn(fs, revoked)
  {
    for k := 0 to |fs|
      invariant forall i :: 0 <= i < k ==> fs[i] !in revoked
    {
      if fs[k] in revoked { return false; }
    }
    return true;
  }

  method CredentialsLeave(replaced: seq<Fingerprint>, target: seq<Fingerprint>) returns (ok: bool)
    ensures ok <==> ReplacedLeave(replaced, target)
  {
    for k := 0 to |replaced|
      invariant forall i :: 0 <= i < k ==> replaced[i] !in target
    {
      if replaced[k] in target { return false; }
    }
    return true;
  }

  /** A completion revokes nothing it installs exactly when every replaced credential
      leaves: swaps and no-op replacements are the only ways to fail. */
  lemma LeaveIff(replaced: seq<Fingerprint>, current: seq<Fingerprint>, target: seq<Fingerprint>)
    ensures ReplacedLeave(replaced, target) <==> Revoked(replaced, current, target) !! Elements(target)
  {
    if !ReplacedLeave(replaced, target) {
      var i :| 0 <= i < |replaced| && replaced[i] in target;
      assert replaced[i] in Revoked(replaced, current, target) && replaced[i] in Elements(target);
    }
  }
}
