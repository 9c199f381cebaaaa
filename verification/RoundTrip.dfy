/** The canonical tree and the walker are inverse: the walker returns a document exactly
    on the values that spell its canonical tree in some member order. With unique
    decodability this makes the canonical text identify the document. */
module RoundTrip {
  import opened Base
  import opened Text
  import opened Doc
  import opened Canon
  import opened Json

  /** `w` spells the tree `v`, up to the order of object members at every level and the
      spelling of its integers. */
  ghost predicate Spells(v: Cv, w: Value)
    decreases v, 1
  {
    match v
    case Str(s) => w == String(s)
    case U32(n) => w.Number? && w.isInt && ParseU32(w.text) == Some(n)
    case Arr(items) =>
      w.Array? && |w.items| == |items| && forall i :: 0 <= i < |items| ==> Spells(items[i], w.items[i])
    case Obj(ms) => w.Object? && exists perm :: Matches(ms, perm, w.members)
  }

  /** The fields spell the members in the order `perm`, a permutation of `ms`. */
  ghost predicate Matches(ms: seq<Member>, perm: seq<Member>, obj: seq<Field>)
    decreases ms, 0
  {
    && multiset(perm) == multiset(ms) && |perm| == |obj|
    && forall i :: 0 <= i < |perm| ==>
         perm[i] in ms && perm[i].key == obj[i].key && Spells(perm[i].val, obj[i].val)
  }

  // ----- objects as lookups -----

  /** The field is present once, with a value spelling `v`. */
  ghost predicate Holds(obj: seq<Field>, key: string, v: Cv) {
    match Lookup(obj, key)
    case Ok(Some(w)) => Spells(v, w)
    case _ => false
  }

  ghost predicate HoldsEach(obj: seq<Field>, ms: seq<Member>) {
    forall i :: 0 <= i < |ms| ==> Holds(obj, ms[i].key, ms[i].val)
  }

  /** No field but these. */
  ghost predicate Only(obj: seq<Field>, keys: seq<string>) {
    forall f :: f in obj ==> f.key in keys
  }

  function KeysOf(ms: seq<Member>): (ks: seq<string>)
    ensures |ks| == |ms|
  {
    seq(|ms|, i requires 0 <= i < |ms| => ms[i].key)
  }

  ghost predicate HoldsAll(obj: seq<Field>, ms: seq<Member>) {
    HoldsEach(obj, ms) && Only(obj, KeysOf(ms))
  }

  lemma {:induction false} LookupAbsent(obj: seq<Field>, name: string)
    ensures Lookup(obj, name) == Ok(None) <==> forall f :: f in obj ==> f.key != name
  {
    if obj != [] {
      LookupAbsent(obj[1..], name);
      assert obj == [obj[0]] + obj[1..];
    }
  }

  /** A found field is some member, and no other member has its key. */
  lemma {:induction false} LookupFound(obj: seq<Field>, name: string) returns (i: nat)
    requires Lookup(obj, name).Ok? && Lookup(obj, name).value.Some?
    ensures i < |obj| && obj[i] == Field(name, Lookup(obj, name).value.value)
    ensures forall j :: 0 <= j < |obj| && j != i ==> obj[j].key != name
  {
    LookupAbsent(obj[1..], name);
    if obj[0].key == name {
      i := 0;
      assert forall j :: 1 <= j < |obj| ==> obj[j] in obj[1..];
    } else {
      var k := LookupFound(obj[1..], name);
      i := k + 1;
      assert forall j :: 1 <= j < |obj| ==> obj[j] == obj[1..][j-1];
    }
  }

  lemma {:induction false} LookupUnique(obj: seq<Field>, i: nat)
    requires i < |obj| && forall j :: 0 <= j < |obj| && j != i ==> obj[j].key != obj[i].key
    ensures Lookup(obj, obj[i].key) == Ok(Some(obj[i].val))
  {
    if i == 0 {
      LookupAbsent(obj[1..], obj[0].key);
      forall f | f in obj[1..] ensures f.key != obj[0].key {
        var j :| 0 <= j < |obj[1..]| && obj[1..][j] == f;
        assert obj[j+1] == f;
      }
    } else {
      assert obj[1..][i-1] == obj[i];
      forall j | 0 <= j < |obj[1..]| && j != i - 1 ensures obj[1..][j].key != obj[i].key {
        assert obj[1..][j] == obj[j+1];
      }
      LookupUnique(obj[1..], i - 1);
      assert obj[0].key != obj[i].key;
    }
  }

  lemma {:induction false} NoRepeats<T>(s: seq<T>)
    requires NoDuplicates(s)
    ensures forall x :: multiset(s)[x] <= 1
  {
    if s != [] {
      var n := |s| - 1;
      NoRepeats(s[..n]);
      assert s == s[..n] + [s[n]];
      assert s[n] !in s[..n];
    }
  }

  /** Duplicate-free lists with the same elements are permutations of each other. */
  lemma SameElements<T>(a: seq<T>, b: seq<T>)
    requires NoDuplicates(a) && NoDuplicates(b)
    requires forall x :: x in a <==> x in b
    ensures multiset(a) == multiset(b)
  {
    NoRepeats(a);
    NoRepeats(b);
    forall x ensures multiset(a)[x] == multiset(b)[x] {
      assert x in multiset(a) <==> x in a;
      assert x in multiset(b) <==> x in b;
    }
  }

  lemma RepeatsCounted<T>(s: seq<T>, i: nat, j: nat)
    requires i < j < |s| && s[i] == s[j]
    ensures multiset(s)[s[i]] >= 2
  {
    assert s == s[..i] + [s[i]] + s[i+1..j] + [s[j]] + s[j+1..];
  }

  /** A permutation keeps keys distinct. */
  lemma PermutationDistinct(ms: seq<Member>, perm: seq<Member>)
    requires DistinctKeys(ms) && multiset(perm) == multiset(ms)
    requires forall i :: 0 <= i < |perm| ==> perm[i] in ms
    ensures DistinctKeys(perm)
  {
    NoRepeats(ms);
    forall i, j | 0 <= i < j < |perm| ensures perm[i].key != perm[j].key {
      if perm[i] == perm[j] { RepeatsCounted(perm, i, j); }
    }
  }

  /** With distinct keys, "some permutation matches" is "every field is found and there
      are no others". */
  lemma ObjectSpells(ms: seq<Member>, obj: seq<Field>)
    requires DistinctKeys(ms)
    ensures Spells(Obj(ms), Object(obj)) <==> HoldsAll(obj, ms)
  {
    if Spells(Obj(ms), Object(obj)) { SpelledHolds(ms, obj); }
    if HoldsAll(obj, ms) { HoldsSpelled(ms, obj); }
  }

  lemma SpelledHolds(ms: seq<Member>, obj: seq<Field>)
    requires DistinctKeys(ms) && Spells(Obj(ms), Object(obj))
    ensures HoldsAll(obj, ms)
  {
    var perm: seq<Member> :| Matches(ms, perm, obj);
    PermutationDistinct(ms, perm);
    forall k | 0 <= k < |ms| ensures Holds(obj, ms[k].key, ms[k].val) {
      assert ms[k] in multiset(perm);
      var i :| 0 <= i < |perm| && perm[i] == ms[k];
      LookupUnique(obj, i);
    }
    forall f | f in obj ensures f.key in KeysOf(ms) {
      var i :| 0 <= i < |obj| && obj[i] == f;
      assert perm[i] in ms && perm[i].key == f.key;
      var k :| 0 <= k < |ms| && ms[k] == perm[i];
      assert KeysOf(ms)[k] == f.key;
    }
  }

  ghost function MemberFor(ms: seq<Member>, obj: seq<Field>, i: nat): (m: Member)
    requires HoldsAll(obj, ms) && i < |obj|
    ensures m in ms && m.key == obj[i].key
  {
    assert obj[i] in obj;
    var k :| 0 <= k < |ms| && KeysOf(ms)[k] == obj[i].key;
    ms[k]
  }

  lemma HoldsSpelled(ms: seq<Member>, obj: seq<Field>)
    requires DistinctKeys(ms) && HoldsAll(obj, ms)
    ensures Spells(Obj(ms), Object(obj))
  {
    var perm := seq(|obj|, i requires 0 <= i < |obj| => MemberFor(ms, obj, i));
    forall i | 0 <= i < |obj|
      ensures perm[i] in ms && perm[i].key == obj[i].key && Spells(perm[i].val, obj[i].val)
      ensures forall j :: 0 <= j < |obj| && j != i ==> obj[j].key != obj[i].key
    {
      var k :| 0 <= k < |ms| && ms[k] == perm[i];
      assert Holds(obj, ms[k].key, ms[k].val);
      var _ := LookupFound(obj, obj[i].key);
    }
    forall m | m in ms ensures m in perm {
      var j :| 0 <= j < |ms| && ms[j] == m;
      assert Holds(obj, ms[j].key, ms[j].val);
      var k := LookupFound(obj, m.key);
      assert perm[k].key == m.key && perm[k] in ms;
      SameKeySameMember(ms, perm[k], m);
    }
    forall x | x in perm ensures x in ms { var i :| 0 <= i < |perm| && perm[i] == x; }
    SameElements(perm, ms);
    assert Matches(ms, perm, obj);
  }

  lemma SameKeySameMember(ms: seq<Member>, a: Member, b: Member)
    requires DistinctKeys(ms) && a in ms && b in ms && a.key == b.key
    ensures a == b
  {
    var i :| 0 <= i < |ms| && ms[i] == a;
    var j :| 0 <= j < |ms| && ms[j] == b;
    if i < j { assert false; } else if j < i { assert false; }
  }

  lemma {:induction false} DenyUnknownMeans(obj: seq<Field>, known: seq<string>)
    ensures DenyUnknown(obj, known).Ok? <==> Only(obj, known)
  {
    if obj != [] {
      DenyUnknownMeans(obj[1..], known);
      assert obj == [obj[0]] + obj[1..];
    }
  }

  // ----- arrays -----

  lemma {:induction false} CollectMeans<T>(f: Value -> Parsed<T>, items: seq<Value>, xs: seq<T>)
    ensures Collect(f, items) == Ok(xs) <==>
            |items| == |xs| && forall i :: 0 <= i < |items| ==> f(items[i]) == Ok(xs[i])
  {
    if items != [] && xs != [] {
      CollectMeans(f, items[1..], xs[1..]);
      assert xs == [xs[0]] + xs[1..];
      assert forall i :: 1 <= i < |items| ==> items[i] == items[1..][i-1];
      assert forall i :: 1 <= i < |xs| ==> xs[i] == xs[1..][i-1];
      if Collect(f, items) == Ok(xs) {
        assert [f(items[0]).value] + Collect(f, items[1..]).value == xs;
        assert Collect(f, items[1..]).value == xs[1..];
      }
    }
  }

  lemma StrsSpelled(w: Value, ss: seq<string>)
    ensures Spells(Arr(Strs(ss)), w) <==> w.Array? && Collect(AsStr, w.items) == Ok(ss)
  {
    if w.Array? {
      CollectMeans(AsStr, w.items, ss);
      assert forall i :: 0 <= i < |ss| ==> Strs(ss)[i] == Str(ss[i]);
    }
  }

  // ----- records -----

  /** The field is there and spells the value, or it is not there at all. */
  ghost predicate OptHolds(obj: seq<Field>, key: string, o: Option<Cv>) {
    match o case Some(v) => Holds(obj, key, v) case None => Lookup(obj, key) == Ok(None)
  }

  ghost predicate AllHold(obj: seq<Field>, keys: seq<string>, vals: seq<Option<Cv>>)
    requires |keys| == |vals|
  {
    forall i :: 0 <= i < |keys| ==> OptHolds(obj, keys[i], vals[i])
  }

  lemma EachOne(obj: seq<Field>, m: Member)
    ensures HoldsEach(obj, [m]) <==> Holds(obj, m.key, m.val)
  {
    if HoldsEach(obj, [m]) { assert [m][0] == m; }
  }

  lemma EachConcat(obj: seq<Field>, a: seq<Member>, b: seq<Member>)
    ensures HoldsEach(obj, a + b) <==> HoldsEach(obj, a) && HoldsEach(obj, b)
  {
    if HoldsEach(obj, a + b) {
      assert forall i :: 0 <= i < |a| ==> a[i] == (a + b)[i];
      assert forall i :: 0 <= i < |b| ==> b[i] == (a + b)[|a| + i];
    }
  }

  lemma Hold1(obj: seq<Field>, k: string, v: Option<Cv>)
    ensures AllHold(obj, [k], [v]) <==> OptHolds(obj, k, v)
  {
    hide OptHolds;
    if AllHold(obj, [k], [v]) { assert OptHolds(obj, [k][0], [v][0]); }
  }

  lemma HoldConcat(obj: seq<Field>, ks: seq<string>, vs: seq<Option<Cv>>, ls: seq<string>, us: seq<Option<Cv>>)
    requires |ks| == |vs| && |ls| == |us|
    ensures AllHold(obj, ks + ls, vs + us) <==> AllHold(obj, ks, vs) && AllHold(obj, ls, us)
  {
    hide OptHolds;
    if AllHold(obj, ks + ls, vs + us) {
      assert forall i :: 0 <= i < |ks| ==> OptHolds(obj, ks[i], vs[i]) by {
        forall i | 0 <= i < |ks| ensures OptHolds(obj, ks[i], vs[i]) {
          assert OptHolds(obj, (ks + ls)[i], (vs + us)[i]);
        }
      }
      forall i | 0 <= i < |ls| ensures OptHolds(obj, ls[i], us[i]) {
        assert OptHolds(obj, (ks + ls)[|ks| + i], (vs + us)[|ks| + i]);
      }
    }
  }

  /** On the given keys, the object has the listed members and nothing else. */
  ghost predicate Agrees(obj: seq<Field>, ms: seq<Member>, keys: seq<string>) {
    HoldsEach(obj, ms) && forall f :: f in obj && f.key in keys ==> f.key in KeysOf(ms)
  }

  lemma MembersAgreeStep(obj: seq<Field>, ms: seq<Member>, keys: seq<string>, key: string, o: Option<Cv>)
    requires key !in keys && DistinctKeys(ms)
    requires forall i :: 0 <= i < |ms| ==> ms[i].key in keys
    ensures var ms' := ms + (match o case Some(v) => [Member(key, v)] case None => []);
            && DistinctKeys(ms')
            && (forall i :: 0 <= i < |ms'| ==> ms'[i].key in keys + [key])
            && (Agrees(obj, ms', keys + [key]) <==> Agrees(obj, ms, keys) && OptHolds(obj, key, o))
  {
    var added := match o case Some(v) => [Member(key, v)] case None => [];
    EachConcat(obj, ms, added);
    LookupAbsent(obj, key);
    if o.Some? {
      EachOne(obj, Member(key, o.value));
      assert KeysOf(ms + added) == KeysOf(ms) + [key];
    } else {
      assert ms + added == ms;
      assert key !in KeysOf(ms);
    }
  }

  lemma {:induction false} MembersAgree(obj: seq<Field>, keys: seq<string>, vals: seq<Option<Cv>>)
    requires |keys| == |vals| && NoDuplicates(keys)
    ensures DistinctKeys(Members(keys, vals))
    ensures forall i :: 0 <= i < |Members(keys, vals)| ==> Members(keys, vals)[i].key in keys
    ensures Agrees(obj, Members(keys, vals), keys) <==> AllHold(obj, keys, vals)
  {
    if keys != [] {
      hide OptHolds, Agrees, AllHold;
      var n := |keys| - 1;
      var key, o := keys[n], vals[n];
      MembersAgree(obj, keys[..n], vals[..n]);
      MembersAgreeStep(obj, Members(keys[..n], vals[..n]), keys[..n], key, o);
      assert keys == keys[..n] + [key] && vals == vals[..n] + [o];
      HoldConcat(obj, keys[..n], vals[..n], [key], [o]);
      Hold1(obj, key, o);
    }
  }

  /** A value spells a record exactly when it is an object with those fields and no
      others. */
  lemma RecordSpells(w: Value, keys: seq<string>, vals: seq<Option<Cv>>)
    requires |keys| == |vals| && NoDuplicates(keys)
    ensures Spells(Record(keys, vals), w) <==> w.Object? && AllHold(w.members, keys, vals) && Only(w.members, keys)
  {
    if w.Object? {
      var obj, ms := w.members, Members(keys, vals);
      MembersAgree(obj, keys, vals);
      ObjectSpells(ms, obj);
      forall k | k in KeysOf(ms) ensures k in keys { var i :| 0 <= i < |ms| && KeysOf(ms)[i] == k; }
    }
  }

  // ----- typed fields -----

  lemma StrHolds(obj: seq<Field>, key: string, s: string)
    ensures OptHolds(obj, key, OfStr(s)) <==> StrField(obj, key) == Ok(s)
  {
  }

  lemma U32Holds(obj: seq<Field>, key: string, n: u32)
    ensures OptHolds(obj, key, OfU32(n)) <==> U32Field(obj, key) == Ok(n)
  {
  }

  lemma StrsHolds(obj: seq<Field>, key: string, ss: seq<string>)
    ensures OptHolds(obj, key, OfStrs(ss)) <==> StrArrayField(obj, key) == Ok(ss)
  {
    if Lookup(obj, key).Ok? && Lookup(obj, key).value.Some? {
      StrsSpelled(Lookup(obj, key).value.value, ss);
    }
  }

  // Reading a record's conditions off one by one.

  lemma Hold2(obj: seq<Field>, k: string, v: Option<Cv>, l: string, u: Option<Cv>)
    ensures AllHold(obj, [k, l], [v, u]) <==> OptHolds(obj, k, v) && OptHolds(obj, l, u)
  {
    Hold1(obj, k, v); Hold1(obj, l, u); HoldConcat(obj, [k], [v], [l], [u]);
    assert [k] + [l] == [k, l] && [v] + [u] == [v, u];
  }

  lemma Hold3(obj: seq<Field>, k: seq<string>, v: seq<Option<Cv>>)
    requires |k| == |v| == 3
    ensures AllHold(obj, k, v) <==> OptHolds(obj, k[0], v[0]) && OptHolds(obj, k[1], v[1]) && OptHolds(obj, k[2], v[2])
  {
    Hold2(obj, k[0], v[0], k[1], v[1]); Hold1(obj, k[2], v[2]);
    HoldConcat(obj, [k[0], k[1]], [v[0], v[1]], [k[2]], [v[2]]);
    assert k == [k[0], k[1]] + [k[2]] && v == [v[0], v[1]] + [v[2]];
  }

  /** Split the first three conditions off a longer list. */
  lemma HoldFirst3(obj: seq<Field>, k: seq<string>, v: seq<Option<Cv>>)
    requires |k| == |v| >= 3
    ensures AllHold(obj, k, v) <==>
            && OptHolds(obj, k[0], v[0]) && OptHolds(obj, k[1], v[1]) && OptHolds(obj, k[2], v[2])
            && AllHold(obj, k[3..], v[3..])
  {
    Hold3(obj, k[..3], v[..3]);
    HoldConcat(obj, k[..3], v[..3], k[3..], v[3..]);
    assert k == k[..3] + k[3..] && v == v[..3] + v[3..];
  }

  // ----- one construct at a time -----

  lemma ContractScopeIff(w: Value, address: string)
    ensures ScopeFromValue(w) == Ok(ContractScope(address)) <==> Spells(ScopeToCv(ContractScope(address)), w)
  {
    hide Spells, OptHolds, Lookup, DenyUnknown, Only, StrField, U32Field, StrArrayField, AllHold, Record;
    RecordSpells(w, TYPE_ADDRESS, [OfStr("contract"), OfStr(address)]);
    if w.Object? {
      Hold2(w.members, "type", OfStr("contract"), "address", OfStr(address));
      StrHolds(w.members, "type", "contract");
      StrHolds(w.members, "address", address);
      DenyUnknownMeans(w.members, TYPE_ADDRESS);
    }
  }

  lemma SelfAdminIff(w: Value)
    ensures ScopeFromValue(w) == Ok(SelfAdmin) <==> Spells(ScopeToCv(SelfAdmin), w)
  {
    hide Spells, OptHolds, Lookup, DenyUnknown, Only, StrField, U32Field, StrArrayField, AllHold, Record;
    RecordSpells(w, ["type"], [OfStr("self-admin")]);
    if w.Object? {
      Hold1(w.members, "type", OfStr("self-admin"));
      StrHolds(w.members, "type", "self-admin");
      DenyUnknownMeans(w.members, ["type"]);
    }
  }

  lemma ScopeIff(w: Value, sc: Scope)
    ensures ScopeFromValue(w) == Ok(sc) <==> Spells(ScopeToCv(sc), w)
  {
    match sc
    case ContractScope(address) => ContractScopeIff(w, address);
    case SelfAdmin => SelfAdminIff(w);
  }

  lemma AllOfThemIff(w: Value, ids: seq<string>)
    ensures PrincipalsFromValue(w) == Ok(AllOfThem(ids)) <==> Spells(PrincipalsToCv(AllOfThem(ids)), w)
  {
    hide Spells, OptHolds, Lookup, DenyUnknown, Only, StrField, U32Field, StrArrayField, AllHold, Record;
    RecordSpells(w, ALL_KEYS, [OfStr("all"), OfStrs(ids)]);
    if w.Object? {
      Hold2(w.members, "type", OfStr("all"), "signers", OfStrs(ids));
      StrHolds(w.members, "type", "all");
      StrsHolds(w.members, "signers", ids);
      DenyUnknownMeans(w.members, ALL_KEYS);
    }
  }

  lemma ThresholdIff(w: Value, ids: seq<string>, m: u32)
    ensures PrincipalsFromValue(w) == Ok(Threshold(ids, m)) <==> Spells(PrincipalsToCv(Threshold(ids, m)), w)
  {
    hide Spells, OptHolds, Lookup, DenyUnknown, Only, StrField, U32Field, StrArrayField, AllHold, Record;
    RecordSpells(w, THRESHOLD_KEYS, [OfStr("threshold"), OfStrs(ids), OfU32(m)]);
    if w.Object? {
      Hold3(w.members, THRESHOLD_KEYS, [OfStr("threshold"), OfStrs(ids), OfU32(m)]);
      StrHolds(w.members, "type", "threshold");
      StrsHolds(w.members, "signers", ids);
      U32Holds(w.members, "m", m);
      DenyUnknownMeans(w.members, THRESHOLD_KEYS);
    }
  }

  lemma SelfAuthenticatingIff(w: Value, policy: string, param: string, ack: string)
    ensures PrincipalsFromValue(w) == Ok(SelfAuthenticating(policy, param, ack)) <==>
            Spells(PrincipalsToCv(SelfAuthenticating(policy, param, ack)), w)
  {
    hide Spells, OptHolds, Lookup, DenyUnknown, Only, StrField, U32Field, StrArrayField, AllHold, Record;
    RecordSpells(w, SELF_AUTH_KEYS, [OfStr("self-authenticating"), OfStr(policy), OfStr(param), OfStr(ack)]);
    if w.Object? {
      HoldFirst3(w.members, SELF_AUTH_KEYS, [OfStr("self-authenticating"), OfStr(policy), OfStr(param), OfStr(ack)]);
      assert SELF_AUTH_KEYS[3..] == ["ack"] &&
             [OfStr("self-authenticating"), OfStr(policy), OfStr(param), OfStr(ack)][3..] == [OfStr(ack)];
      Hold1(w.members, "ack", OfStr(ack));
      StrHolds(w.members, "type", "self-authenticating");
      StrHolds(w.members, "policy", policy);
      StrHolds(w.members, "install-param-hex", param);
      StrHolds(w.members, "ack", ack);
      DenyUnknownMeans(w.members, SELF_AUTH_KEYS);
    }
  }

  lemma PrincipalsIff(w: Value, p: Principals)
    ensures PrincipalsFromValue(w) == Ok(p) <==> Spells(PrincipalsToCv(p), w)
  {
    match p
    case AllOfThem(ids) => AllOfThemIff(w, ids);
    case Threshold(ids, m) => ThresholdIff(w, ids, m);
    case SelfAuthenticating(policy, param, ack) => SelfAuthenticatingIff(w, policy, param, ack);
  }

  lemma IsSelfIff(w: Value)
    ensures PredFromValue(w) == Ok(IsSelf) <==> Spells(PredToCv(IsSelf), w)
  {
    hide Spells, OptHolds, Lookup, DenyUnknown, Only, StrField, U32Field, StrArrayField, AllHold, Record;
    RecordSpells(w, ["type"], [OfStr("is-self")]);
    if w.Object? {
      Hold1(w.members, "type", OfStr("is-self"));
      StrHolds(w.members, "type", "is-self");
      DenyUnknownMeans(w.members, ["type"]);
    }
  }

  lemma AddressEqIff(w: Value, address: string)
    ensures PredFromValue(w) == Ok(AddressEq(address)) <==> Spells(PredToCv(AddressEq(address)), w)
  {
    hide Spells, OptHolds, Lookup, DenyUnknown, Only, StrField, U32Field, StrArrayField, AllHold, Record;
    RecordSpells(w, TYPE_ADDRESS, [OfStr("address-eq"), OfStr(address)]);
    if w.Object? {
      Hold2(w.members, "type", OfStr("address-eq"), "address", OfStr(address));
      StrHolds(w.members, "type", "address-eq");
      StrHolds(w.members, "address", address);
      DenyUnknownMeans(w.members, TYPE_ADDRESS);
    }
  }

  lemma StringInIff(w: Value, values: seq<string>)
    ensures PredFromValue(w) == Ok(StringIn(values)) <==> Spells(PredToCv(StringIn(values)), w)
  {
    hide Spells, OptHolds, Lookup, DenyUnknown, Only, StrField, U32Field, StrArrayField, AllHold, Record;
    RecordSpells(w, ["type", "values"], [OfStr("string-in"), OfStrs(values)]);
    if w.Object? {
      Hold2(w.members, "type", OfStr("string-in"), "values", OfStrs(values));
      StrHolds(w.members, "type", "string-in");
      StrsHolds(w.members, "values", values);
      DenyUnknownMeans(w.members, ["type", "values"]);
    }
  }

  lemma StringPrefixIff(w: Value, prefix: string)
    ensures PredFromValue(w) == Ok(StringPrefix(prefix)) <==> Spells(PredToCv(StringPrefix(prefix)), w)
  {
    hide Spells, OptHolds, Lookup, DenyUnknown, Only, StrField, U32Field, StrArrayField, AllHold, Record;
    RecordSpells(w, ["type", "prefix"], [OfStr("string-prefix"), OfStr(prefix)]);
    if w.Object? {
      Hold2(w.members, "type", OfStr("string-prefix"), "prefix", OfStr(prefix));
      StrHolds(w.members, "type", "string-prefix");
      StrHolds(w.members, "prefix", prefix);
      DenyUnknownMeans(w.members, ["type", "prefix"]);
    }
  }

  lemma U32EqIff(w: Value, value: u32)
    ensures PredFromValue(w) == Ok(U32Eq(value)) <==> Spells(PredToCv(U32Eq(value)), w)
  {
    hide Spells, OptHolds, Lookup, DenyUnknown, Only, StrField, U32Field, StrArrayField, AllHold, Record;
    RecordSpells(w, ["type", "value"], [OfStr("u32-eq"), OfU32(value)]);
    if w.Object? {
      Hold2(w.members, "type", OfStr("u32-eq"), "value", OfU32(value));
      StrHolds(w.members, "type", "u32-eq");
      U32Holds(w.members, "value", value);
      DenyUnknownMeans(w.members, ["type", "value"]);
    }
  }

  lemma PredIff(w: Value, p: ArgPred)
    ensures PredFromValue(w) == Ok(p) <==> Spells(PredToCv(p), w)
  {
    match p
    case IsSelf => IsSelfIff(w);
    case AddressEq(address) => AddressEqIff(w, address);
    case StringIn(values) => StringInIff(w, values);
    case StringPrefix(prefix) => StringPrefixIff(w, prefix);
    case U32Eq(value) => U32EqIff(w, value);
  }

  lemma ExternalIff(w: Value, id: string, verifier: string, key: string)
    ensures SignerFromValue(w) == Ok(SignerDecl(id, External(verifier, key))) <==>
            Spells(SignerToCv(SignerDecl(id, External(verifier, key))), w)
  {
    RecordSpells(w, EXTERNAL_KEYS, [OfStr(id), OfStr(verifier), OfStr(key)]);
    if w.Object? {
      NoAddress(w.members);
      hide Spells, OptHolds, Lookup, DenyUnknown, Only, StrField, AllHold, Record;
      Hold3(w.members, EXTERNAL_KEYS, [OfStr(id), OfStr(verifier), OfStr(key)]);
      StrHolds(w.members, "id", id);
      StrHolds(w.members, "verifier", verifier);
      StrHolds(w.members, "key", key);
      DenyUnknownMeans(w.members, EXTERNAL_KEYS);
    }
  }

  lemma NoAddress(obj: seq<Field>)
    ensures Only(obj, EXTERNAL_KEYS) ==> Lookup(obj, "address") == Ok(None)
  {
    LookupAbsent(obj, "address");
  }

  lemma DelegatedIff(w: Value, id: string, address: string)
    ensures SignerFromValue(w) == Ok(SignerDecl(id, Delegated(address))) <==>
            Spells(SignerToCv(SignerDecl(id, Delegated(address))), w)
  {
    RecordSpells(w, DELEGATED_KEYS, [OfStr(id), OfStr(address)]);
    if w.Object? {
      HasAddress(w.members, address);
      hide Spells, OptHolds, Lookup, DenyUnknown, Only, StrField, AllHold, Record;
      Hold2(w.members, "id", OfStr(id), "address", OfStr(address));
      StrHolds(w.members, "id", id);
      StrHolds(w.members, "address", address);
      DenyUnknownMeans(w.members, DELEGATED_KEYS);
    }
  }

  lemma HasAddress(obj: seq<Field>, address: string)
    ensures StrField(obj, "address") == Ok(address) ==> Lookup(obj, "address").Ok? && Lookup(obj, "address").value.Some?
  {
  }

  lemma SignerIff(w: Value, s: SignerDecl)
    ensures SignerFromValue(w) == Ok(s) <==> Spells(SignerToCv(s), w)
  {
    match s.how
    case External(verifier, key) => ExternalIff(w, s.id, verifier, key);
    case Delegated(address) => DelegatedIff(w, s.id, address);
  }

  /** A required field read by an exact reader. */
  lemma RequiredHolds<T>(obj: seq<Field>, key: string, read: Value -> Parsed<T>, x: T, v: Cv)
    requires forall w :: read(w) == Ok(x) <==> Spells(v, w)
    ensures OptHolds(obj, key, Some(v)) <==> Required(obj, key).Ok? && read(Required(obj, key).value) == Ok(x)
  {
    hide Spells;
  }

  /** An optional field read by an exact reader that refuses null. */
  lemma OptionalHolds<T>(obj: seq<Field>, key: string, read: Value -> Parsed<T>, x: T, v: Cv)
    requires forall w :: read(w) == Ok(x) <==> Spells(v, w)
    ensures OptHolds(obj, key, Some(v)) <==>
            Optional(obj, key).Ok? && Optional(obj, key).value.Some? && read(Optional(obj, key).value.value) == Ok(x)
    ensures OptHolds(obj, key, None) <==> Optional(obj, key) == Ok(None)
  {
    assert !Spells(v, Null);
    hide Spells;
  }

  lemma ArrayIff<T>(w: Value, read: Value -> Parsed<T>, xs: seq<T>, vs: seq<Cv>)
    requires |xs| == |vs|
    requires forall i, u :: 0 <= i < |xs| ==> (read(u) == Ok(xs[i]) <==> Spells(vs[i], u))
    ensures Spells(Arr(vs), w) <==> AsArray(w).Ok? && Collect(read, AsArray(w).value) == Ok(xs)
  {
    if w.Array? { CollectMeans(read, w.items, xs); }
  }

  lemma ArgConstraintIff(w: Value, a: ArgConstraint)
    ensures ArgConstraintFromValue(w) == Ok(a) <==> Spells(ArgConstraintToCv(a), w)
  {
    hide Spells, OptHolds, Lookup, DenyUnknown, Only, U32Field, Required, AllHold, Record, PredFromValue, PredToCv;
    RecordSpells(w, ARG_KEYS, [OfU32(a.index), Some(PredToCv(a.pred))]);
    if w.Object? {
      var obj := w.members;
      Hold2(obj, "index", OfU32(a.index), "pred", Some(PredToCv(a.pred)));
      U32Holds(obj, "index", a.index);
      forall u ensures PredFromValue(u) == Ok(a.pred) <==> Spells(PredToCv(a.pred), u) { PredIff(u, a.pred); }
      RequiredHolds(obj, "pred", PredFromValue, a.pred, PredToCv(a.pred));
      DenyUnknownMeans(obj, ARG_KEYS);
    }
  }

  lemma OptionalStrHolds(obj: seq<Field>, key: string, o: Option<string>)
    ensures OptHolds(obj, key, OptStr(o)) <==> OptionalStr(obj, key) == Ok(o)
  {
  }

  lemma OptionalU32Holds(obj: seq<Field>, key: string, o: Option<u32>)
    ensures OptHolds(obj, key, OptU32(o)) <==> OptionalU32(obj, key) == Ok(o)
  {
  }

  lemma CapIff(w: Value, cap: CapConstraint)
    ensures CapFromValue(w) == Ok(cap) <==> Spells(CapToCv(cap), w)
  {
    hide Spells, OptHolds, Lookup, DenyUnknown, Only, StrField, U32Field, OptionalStr, AllHold, Record, OptStr;
    RecordSpells(w, CAP_KEYS, [OptStr(cap.token), OfStr(cap.limit), OfU32(cap.periodLedgers)]);
    if w.Object? {
      Hold3(w.members, CAP_KEYS, [OptStr(cap.token), OfStr(cap.limit), OfU32(cap.periodLedgers)]);
      OptionalStrHolds(w.members, "token", cap.token);
      StrHolds(w.members, "limit", cap.limit);
      U32Holds(w.members, "period-ledgers", cap.periodLedgers);
      DenyUnknownMeans(w.members, CAP_KEYS);
    }
  }

  lemma FunctionsHolds(obj: seq<Field>, o: Option<seq<string>>)
    ensures OptHolds(obj, "functions", OptStrs(o)) <==> OptionalFunctions(obj) == Ok(o)
  {
    if Lookup(obj, "functions").Ok? && Lookup(obj, "functions").value.Some? && o.Some? {
      StrsSpelled(Lookup(obj, "functions").value.value, o.value);
    }
  }

  lemma ArgsHolds(obj: seq<Field>, o: Option<seq<ArgConstraint>>)
    ensures OptHolds(obj, "args", OptArgs(o)) <==> OptionalArgs(obj) == Ok(o)
  {
    hide ArgConstraintFromValue, ArgConstraintToCv;
    if Lookup(obj, "args").Ok? && Lookup(obj, "args").value.Some? && o.Some? {
      forall i, u | 0 <= i < |o.value|
        ensures ArgConstraintFromValue(u) == Ok(o.value[i]) <==> Spells(ArgsToCv(o.value)[i], u)
      {
        ArgConstraintIff(u, o.value[i]);
      }
      ArrayIff(Lookup(obj, "args").value.value, ArgConstraintFromValue, o.value, ArgsToCv(o.value));
    }
  }

  lemma CapHolds(obj: seq<Field>, o: Option<CapConstraint>)
    ensures OptHolds(obj, "cap", OptCap(o)) <==> OptionalCap(obj) == Ok(o)
  {
    hide CapFromValue, CapToCv, Spells;
    if o.Some? {
      forall u ensures CapFromValue(u) == Ok(o.value) <==> Spells(CapToCv(o.value), u) { CapIff(u, o.value); }
      OptionalHolds(obj, "cap", CapFromValue, o.value, CapToCv(o.value));
    }
  }

  lemma RuleIff(w: Value, r: Rule)
    ensures RuleFromValue(w) == Ok(r) <==> Spells(RuleToCv(r), w)
  {
    hide Spells, OptHolds, Lookup, DenyUnknown, Only, StrField, Required, AllHold, Record;
    hide OptionalFunctions, OptionalArgs, OptionalU32, OptionalCap, ScopeFromValue, PrincipalsFromValue;
    hide ScopeToCv, PrincipalsToCv, OptStrs, OptArgs, OptU32, OptCap;
    var vals := [OfStr(r.name), Some(ScopeToCv(r.scope)), Some(PrincipalsToCv(r.principals)),
                 OptStrs(r.functions), OptArgs(r.args), OptU32(r.notAfterLedger), OptCap(r.cap)];
    RecordSpells(w, RULE_KEYS, vals);
    if w.Object? {
      var obj := w.members;
      RuleHolds(obj, vals);
      StrHolds(obj, "name", r.name);
      forall u ensures ScopeFromValue(u) == Ok(r.scope) <==> Spells(ScopeToCv(r.scope), u) { ScopeIff(u, r.scope); }
      RequiredHolds(obj, "scope", ScopeFromValue, r.scope, ScopeToCv(r.scope));
      forall u ensures PrincipalsFromValue(u) == Ok(r.principals) <==> Spells(PrincipalsToCv(r.principals), u) {
        PrincipalsIff(u, r.principals);
      }
      RequiredHolds(obj, "principals", PrincipalsFromValue, r.principals, PrincipalsToCv(r.principals));
      FunctionsHolds(obj, r.functions);
      ArgsHolds(obj, r.args);
      OptionalU32Holds(obj, "not-after-ledger", r.notAfterLedger);
      CapHolds(obj, r.cap);
      DenyUnknownMeans(obj, RULE_KEYS);
    }
  }

  lemma RuleHolds(obj: seq<Field>, v: seq<Option<Cv>>)
    requires |v| == 7
    ensures AllHold(obj, RULE_KEYS, v) <==>
            && OptHolds(obj, "name", v[0]) && OptHolds(obj, "scope", v[1]) && OptHolds(obj, "principals", v[2])
            && OptHolds(obj, "functions", v[3]) && OptHolds(obj, "args", v[4]) &&
               OptHolds(obj, "not-after-ledger", v[5])
            && OptHolds(obj, "cap", v[6])
  {
    hide OptHolds, AllHold;
    HoldFirst3(obj, RULE_KEYS, v);
    HoldFirst3(obj, RULE_KEYS[3..], v[3..]);
    assert RULE_KEYS[3..][3..] == ["cap"] && v[3..][3..] == [v[6]];
    Hold1(obj, "cap", v[6]);
  }

  // ----- the recovery member -----

  lemma GuardianOnlyIff(w: Value, g: GuardianSet)
    ensures ModeFromValue(w) == Ok(GuardianOnly(g)) <==> Spells(ModeToCv(GuardianOnly(g)), w)
  {
    hide Spells, OptHolds, Lookup, DenyUnknown, Only, StrField, U32Field, StrArrayField, AllHold, Record;
    RecordSpells(w, GUARDIAN_KEYS, [OfStr("guardian-only"), OfStrs(g.guardians), OfU32(g.quorum)]);
    if w.Object? {
      Hold3(w.members, GUARDIAN_KEYS, [OfStr("guardian-only"), OfStrs(g.guardians), OfU32(g.quorum)]);
      StrHolds(w.members, "type", "guardian-only");
      StrsHolds(w.members, "guardians", g.guardians);
      U32Holds(w.members, "quorum", g.quorum);
      DenyUnknownMeans(w.members, GUARDIAN_KEYS);
    }
  }

  lemma ZkHolds(obj: seq<Field>, z: ZkFactor)
    ensures ZkFromFields(obj) == Ok(z) <==>
            && OptHolds(obj, "adapter", OfStr(z.adapter)) && OptHolds(obj, "circuit-id", OfStr(z.circuitId))
            && OptHolds(obj, "pool", OfStr(z.pool)) && OptHolds(obj, "enrollment-id", OfStr(z.enrollmentId))
            && OptHolds(obj, "commitment", OfStr(z.commitment))
  {
    hide OptHolds, StrField;
    StrHolds(obj, "adapter", z.adapter);
    StrHolds(obj, "circuit-id", z.circuitId);
    StrHolds(obj, "pool", z.pool);
    StrHolds(obj, "enrollment-id", z.enrollmentId);
    StrHolds(obj, "commitment", z.commitment);
  }

  lemma ZkOnlyIff(w: Value, z: ZkFactor)
    ensures ModeFromValue(w) == Ok(ZkOnly(z)) <==> Spells(ModeToCv(ZkOnly(z)), w)
  {
    hide Spells, OptHolds, Lookup, DenyUnknown, Only, StrField, ZkFromFields, GuardiansFromFields, AllHold, Record;
    var v := [OfStr("zk-only"), OfStr(z.adapter), OfStr(z.circuitId), OfStr(z.pool), OfStr(z.enrollmentId),
              OfStr(z.commitment)];
    RecordSpells(w, ZK_KEYS, v);
    if w.Object? {
      HoldFirst3(w.members, ZK_KEYS, v);
      Hold3(w.members, ZK_KEYS[3..], v[3..]);
      StrHolds(w.members, "type", "zk-only");
      ZkHolds(w.members, z);
      DenyUnknownMeans(w.members, ZK_KEYS);
    }
  }

  lemma CombinedIff(w: Value, g: GuardianSet, z: ZkFactor)
    ensures ModeFromValue(w) == Ok(Combined(g, z)) <==> Spells(ModeToCv(Combined(g, z)), w)
  {
    hide Spells, OptHolds, Lookup, DenyUnknown, Only, StrField, U32Field, StrArrayField, ZkFromFields, AllHold, Record;
    var v := [OfStr("combined"), OfStrs(g.guardians), OfU32(g.quorum),
              OfStr(z.adapter), OfStr(z.circuitId), OfStr(z.pool), OfStr(z.enrollmentId), OfStr(z.commitment)];
    RecordSpells(w, COMBINED_KEYS, v);
    if w.Object? {
      CombinedHolds(w.members, v);
      StrHolds(w.members, "type", "combined");
      StrsHolds(w.members, "guardians", g.guardians);
      U32Holds(w.members, "quorum", g.quorum);
      ZkHolds(w.members, z);
      DenyUnknownMeans(w.members, COMBINED_KEYS);
    }
  }

  lemma CombinedHolds(obj: seq<Field>, v: seq<Option<Cv>>)
    requires |v| == 8
    ensures AllHold(obj, COMBINED_KEYS, v) <==>
            && OptHolds(obj, "type", v[0]) && OptHolds(obj, "guardians", v[1]) && OptHolds(obj, "quorum", v[2])
            && OptHolds(obj, "adapter", v[3]) && OptHolds(obj, "circuit-id", v[4]) && OptHolds(obj, "pool", v[5])
            && OptHolds(obj, "enrollment-id", v[6]) && OptHolds(obj, "commitment", v[7])
  {
    hide OptHolds, AllHold;
    HoldFirst3(obj, COMBINED_KEYS, v);
    HoldFirst3(obj, COMBINED_KEYS[3..], v[3..]);
    assert COMBINED_KEYS[3..][3..] == ["enrollment-id", "commitment"] && v[3..][3..] == [v[6], v[7]];
    Hold2(obj, "enrollment-id", v[6], "commitment", v[7]);
  }

  lemma ModeIff(w: Value, m: RecoveryMode)
    ensures ModeFromValue(w) == Ok(m) <==> Spells(ModeToCv(m), w)
  {
    match m
    case GuardianOnly(g) => GuardianOnlyIff(w, g);
    case ZkOnly(z) => ZkOnlyIff(w, z);
    case Combined(g, z) => CombinedIff(w, g, z);
  }

  lemma BaselineHolds(obj: seq<Field>, o: Option<string>)
    ensures OptHolds(obj, "baseline", OptBaseline(o)) <==> OptionalBaseline(obj) == Ok(o)
  {
    if Lookup(obj, "baseline").Ok? && Lookup(obj, "baseline").value.Some? && o.Some? {
      var w := Lookup(obj, "baseline").value.value;
      hide Spells, DenyUnknown, Only, StrField, AllHold, Record;
      RecordSpells(w, ["doc-hash"], [OfStr(o.value)]);
      if w.Object? {
        Hold1(w.members, "doc-hash", OfStr(o.value));
        StrHolds(w.members, "doc-hash", o.value);
        DenyUnknownMeans(w.members, ["doc-hash"]);
      }
    }
  }

  lemma ProfileHolds(obj: seq<Field>, p: RecoveryProfile)
    ensures OptHolds(obj, "profile", OfStr(ProfileStr(p))) <==>
            StrField(obj, "profile").Ok? && ProfileFromStr(StrField(obj, "profile").value) == Ok(p)
  {
    StrHolds(obj, "profile", ProfileStr(p));
    hide OptHolds, StrField;
  }

  lemma RecoveryHolds(obj: seq<Field>, v: seq<Option<Cv>>)
    requires |v| == 8
    ensures AllHold(obj, RECOVERY_KEYS, v) <==>
            && OptHolds(obj, "profile", v[0]) && OptHolds(obj, "mode", v[1]) && OptHolds(obj, "controller", v[2])
            && OptHolds(obj, "baseline", v[3]) && OptHolds(obj, "replaceable", v[4]) &&
               OptHolds(obj, "delay-ledgers", v[5])
            && OptHolds(obj, "expiry-ledgers", v[6]) && OptHolds(obj, "max-cancels", v[7])
  {
    hide OptHolds, AllHold;
    HoldFirst3(obj, RECOVERY_KEYS, v);
    HoldFirst3(obj, RECOVERY_KEYS[3..], v[3..]);
    assert RECOVERY_KEYS[3..][3..] == ["expiry-ledgers", "max-cancels"] && v[3..][3..] == [v[6], v[7]];
    Hold2(obj, "expiry-ledgers", v[6], "max-cancels", v[7]);
  }

  lemma RecoveryIff(w: Value, r: RecoveryConfig)
    ensures RecoveryFromValue(w) == Ok(r) <==> Spells(RecoveryToCv(r), w)
  {
    hide Spells, OptHolds, Lookup, DenyUnknown, Only, StrField, U32Field, StrArrayField, Required, AllHold, Record;
    hide OptionalBaseline, ModeFromValue, ModeToCv, OptBaseline, ProfileStr, ProfileFromStr;
    var v := [OfStr(ProfileStr(r.profile)), Some(ModeToCv(r.mode)), OfStr(r.controller), OptBaseline(r.baseline),
              OfStrs(r.replaceableIds), OfU32(r.delayLedgers), OfU32(r.expiryLedgers), OfU32(r.maxCancels)];
    RecordSpells(w, RECOVERY_KEYS, v);
    if w.Object? {
      var obj := w.members;
      RecoveryHolds(obj, v);
      ProfileHolds(obj, r.profile);
      forall u ensures ModeFromValue(u) == Ok(r.mode) <==> Spells(ModeToCv(r.mode), u) { ModeIff(u, r.mode); }
      RequiredHolds(obj, "mode", ModeFromValue, r.mode, ModeToCv(r.mode));
      StrHolds(obj, "controller", r.controller);
      BaselineHolds(obj, r.baseline);
      StrsHolds(obj, "replaceable", r.replaceableIds);
      U32Holds(obj, "delay-ledgers", r.delayLedgers);
      U32Holds(obj, "expiry-ledgers", r.expiryLedgers);
      U32Holds(obj, "max-cancels", r.maxCancels);
      DenyUnknownMeans(obj, RECOVERY_KEYS);
    }
  }

  // ----- the document -----

  lemma RecoveryMemberHolds(obj: seq<Field>, o: Option<RecoveryConfig>)
    ensures OptHolds(obj, "recovery", OptRecovery(o)) <==> OptionalRecovery(obj) == Ok(o)
  {
    hide RecoveryFromValue, RecoveryToCv, Spells;
    if o.Some? {
      forall u ensures RecoveryFromValue(u) == Ok(o.value) <==> Spells(RecoveryToCv(o.value), u) {
        RecoveryIff(u, o.value);
      }
      OptionalHolds(obj, "recovery", RecoveryFromValue, o.value, RecoveryToCv(o.value));
    }
  }

  lemma ArrayHolds<T>(obj: seq<Field>, key: string, read: Value -> Parsed<T>, xs: seq<T>, vs: seq<Cv>)
    requires |xs| == |vs|
    requires forall i, u :: 0 <= i < |xs| ==> (read(u) == Ok(xs[i]) <==> Spells(vs[i], u))
    ensures OptHolds(obj, key, Some(Arr(vs))) <==>
            ArrayField(obj, key).Ok? && Collect(read, ArrayField(obj, key).value) == Ok(xs)
  {
    if Lookup(obj, key).Ok? && Lookup(obj, key).value.Some? {
      ArrayIff(Lookup(obj, key).value.value, read, xs, vs);
    }
    hide Spells;
  }

  lemma SignersHold(obj: seq<Field>, ss: seq<SignerDecl>)
    ensures OptHolds(obj, "signers", Some(Arr(SignersToCv(ss)))) <==>
            ArrayField(obj, "signers").Ok? && Collect(SignerFromValue, ArrayField(obj, "signers").value) == Ok(ss)
  {
    hide Spells, SignerFromValue, SignerToCv;
    forall i, u | 0 <= i < |ss| ensures SignerFromValue(u) == Ok(ss[i]) <==> Spells(SignersToCv(ss)[i], u) {
      SignerIff(u, ss[i]);
    }
    ArrayHolds(obj, "signers", SignerFromValue, ss, SignersToCv(ss));
  }

  lemma RulesHold(obj: seq<Field>, rs: seq<Rule>)
    ensures OptHolds(obj, "rules", Some(Arr(RulesToCv(rs)))) <==>
            ArrayField(obj, "rules").Ok? && Collect(RuleFromValue, ArrayField(obj, "rules").value) == Ok(rs)
  {
    hide Spells, RuleFromValue, RuleToCv;
    forall i, u | 0 <= i < |rs| ensures RuleFromValue(u) == Ok(rs[i]) <==> Spells(RulesToCv(rs)[i], u) {
      RuleIff(u, rs[i]);
    }
    ArrayHolds(obj, "rules", RuleFromValue, rs, RulesToCv(rs));
  }

  lemma DocHolds(obj: seq<Field>, v: seq<Option<Cv>>)
    requires |v| == 5
    ensures AllHold(obj, DOC_KEYS, v) <==>
            && OptHolds(obj, "version", v[0]) && OptHolds(obj, "network", v[1]) && OptHolds(obj, "signers", v[2])
            && OptHolds(obj, "rules", v[3]) && OptHolds(obj, "recovery", v[4])
  {
    hide OptHolds, AllHold;
    HoldFirst3(obj, DOC_KEYS, v);
    assert DOC_KEYS[3..] == ["rules", "recovery"] && v[3..] == [v[3], v[4]];
    Hold2(obj, "rules", v[3], "recovery", v[4]);
  }

  /** The walker returns a document exactly on the values that spell its canonical tree:
      in any member order, with nothing missing, repeated, null or unknown. */
  lemma DocIff(w: Value, d: PolicyDoc)
    ensures DocFromValue(w) == Ok(d) <==> Spells(DocToCv(d), w)
  {
    hide Spells, OptHolds, Lookup, DenyUnknown, Only, U32Field, ArrayField, Required, AllHold, Record;
    hide OptionalStr, OptionalRecovery, SignersToCv, RulesToCv, OptStr, OptRecovery, Collect;
    var v := [OfU32(d.version), OptStr(d.network), Some(Arr(SignersToCv(d.signers))), Some(Arr(RulesToCv(d.rules))),
              OptRecovery(d.recovery)];
    RecordSpells(w, DOC_KEYS, v);
    if w.Object? {
      var obj := w.members;
      DocHolds(obj, v);
      U32Holds(obj, "version", d.version);
      OptionalStrHolds(obj, "network", d.network);
      SignersHold(obj, d.signers);
      RulesHold(obj, d.rules);
      RecoveryMemberHolds(obj, d.recovery);
      DenyUnknownMeans(obj, DOC_KEYS);
    }
  }

  lemma {:induction false} NoWrongVersion(obj: seq<Field>)
    ensures WrongVersion(obj).None? <==> forall f :: f in obj ==> VersionOf(f) in {None, Some(1)}
  {
    if obj != [] {
      NoWrongVersion(obj[1..]);
      assert obj == [obj[0]] + obj[1..];
    }
  }

  lemma VersionField(obj: seq<Field>, n: u32)
    requires U32Field(obj, "version") == Ok(n)
    ensures WrongVersion(obj).None? <==> n == 1
  {
    NoWrongVersion(obj);
    var i := LookupFound(obj, "version");
    assert VersionOf(obj[i]) == Some(n);
    forall f | f in obj ensures f == obj[i] || VersionOf(f).None? {
      var j :| 0 <= j < |obj| && obj[j] == f;
    }
  }

  /** What `from_json` accepts, exactly: the spellings of version-1 documents. */
  lemma FromJsonIff(w: Value, d: PolicyDoc)
    ensures FromJson(w) == Ok(d) <==> d.version == 1 && Spells(DocToCv(d), w)
  {
    DocIff(w, d);
    if w.Object? && DocFromValue(w) == Ok(d) {
      VersionField(w.members, d.version);
    }
    hide DocFromValue, Spells, WrongVersion;
  }
}
