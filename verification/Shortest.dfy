/** Why the canonical text is the one it is (crates/perch-ir/src/canon.rs, RFC 8785): among all
    the texts without whitespace and with ascending keys that mean a document, it is the
    shortest, and no other one of its length differs but in the case of hex digits. */
module Shortest {
  import opened Base
  import opened Text
  import opened Doc
  import opened Canon
  import opened Order
  import opened Json
  import opened Reader
  import opened RoundTrip
  import opened Identity

  // ----- comparing texts -----

  /** The same character, or a capital hex digit for the small one. */
  predicate AlikeAt(a: char, c: char) {
    a == c || ('A' <= a <= 'F' && c as int == a as int + 32)
  }

  ghost predicate Alike(t: string, c: string) {
    |t| == |c| && forall i :: 0 <= i < |t| ==> AlikeAt(t[i], c[i])
  }

  /** The text up to `rest` is no shorter than `c`, and as long only if it is alike. */
  ghost predicate Over(t: string, rest: string, c: string) {
    |t| >= |c| + |rest| && (|t| == |c| + |rest| ==> Alike(t, c + rest))
  }

  lemma AlikeTransitive(t: string, u: string, v: string)
    requires Alike(t, u) && Alike(u, v)
    ensures Alike(t, v)
  {
    forall i | 0 <= i < |t| ensures AlikeAt(t[i], v[i]) {
      assert AlikeAt(t[i], u[i]) && AlikeAt(u[i], v[i]);
    }
  }

  lemma OverThen(t: string, mid: string, rest: string, c: string, d: string)
    requires Over(t, mid, c) && Over(mid, rest, d)
    ensures Over(t, rest, c + d)
  {
    if |t| == |c + d| + |rest| {
      assert Alike(c + mid, c + (d + rest));
      AlikeTransitive(t, c + mid, c + (d + rest));
      assert c + (d + rest) == c + d + rest;
    }
  }

  /** A text that starts with `c` itself. */
  lemma OverSame(t: string, c: string)
    requires c <= t
    ensures Over(t, t[|c|..], c)
  {
    assert t == c + t[|c|..];
  }

  // ----- one character -----

  lemma UnitValue(t: string, n: nat)
    requires |t| >= 4 && CodeUnit(t) == Some(n) && n < 0x20
    ensures t[0] == t[1] == '0' && Nibble(t[2]) == Some(n / 16) && Nibble(t[3]) == Some(n % 16)
  {
    var w: int, x: int, y: int, z: int :=
      Nibble(t[0]).value, Nibble(t[1]).value, Nibble(t[2]).value, Nibble(t[3]).value;
    assert n == 4096 * w + 256 * x + 16 * y + z;
    assert w == 0 && x == 0;
  }

  lemma HexAlike(a: char, n: nibble)
    requires Nibble(a) == Some(n)
    ensures AlikeAt(a, HexDigit(n))
  {
  }

  lemma UnitOver(t: string, c: char, r: string)
    requires StartsUnit(t) && ReadUnits(t) == Some(Read(c, r))
    ensures Over(t, r, Escape(c))
  {
    var e := Escape(c);
    if |e| == 6 {
      var n := c as int;
      UnitValue(t[2..], n);
      HexAlike(t[4], n / 16);
      HexAlike(t[5], n % 16);
      assert r == t[6..];
      assert e[0] == '\\' && e[1] == 'u' && e[2] == e[3] == '0' && e[4] == HexDigit(n / 16) && e[5] == HexDigit(n % 16);
      assert Alike(t, e + r);
    }
  }

  /** Whatever a reader takes for a character is no shorter than what the emitter writes, and
      as long only if it is the same up to the case of a hex digit. */
  lemma CharOver(t: string, c: char, r: string)
    requires t != [] && t[0] != '"' && ReadChar(t) == Some(Read(c, r))
    ensures Over(t, r, Escape(c))
  {
    if t[0] == '\\' && StartsUnit(t) {
      UnitOver(t, c, r);
    } else if t[0] == '\\' {
      if |Escape(c)| == 2 {
        assert t[..2] == Escape(c);
        OverSame(t, Escape(c));
      }
    } else {
      OverSame(t, Escape(c));
    }
  }

  // ----- strings and numbers -----

  lemma {:induction false} CharsOver(t: string, s: string, r: string)
    requires ReadChars(t) == Some(Read(s, r))
    ensures Over(t, r, EscapeAll(s) + "\"")
    decreases |t|
  {
    hide Escape, ReadChar, Over;
    if t[0] == '"' {
      OverSame(t, "\"");
      assert EscapeAll(s) + "\"" == "\"";
    } else {
      var first := ReadChar(t).value;
      CharOver(t, first.value, first.rest);
      CharsOver(first.rest, s[1..], r);
      OverThen(t, first.rest, r, Escape(s[0]), EscapeAll(s[1..]) + "\"");
      EscapeFront(s);
      assert Escape(s[0]) + (EscapeAll(s[1..]) + "\"") == EscapeAll(s) + "\"";
    }
  }

  lemma StringOver(t: string, s: string, r: string)
    requires t != [] && t[0] == '"' && ReadChars(t[1..]) == Some(Read(s, r))
    ensures Over(t, r, Quoted(s))
  {
    hide EscapeAll, ReadChars;
    OverSame(t, "\"");
    CharsOver(t[1..], s, r);
    OverThen(t, t[1..], r, "\"", EscapeAll(s) + "\"");
    assert "\"" + (EscapeAll(s) + "\"") == Quoted(s);
  }

  /** A number has one shortest decimal spelling. */
  lemma {:induction false} DecimalShortest(d: string)
    requires d != [] && AllDigits(d)
    ensures |d| >= |Decimal(DecimalValue(d))|
    ensures |d| == |Decimal(DecimalValue(d))| ==> d == Decimal(DecimalValue(d))
  {
    var init, last := d[..|d|-1], d[|d|-1];
    assert d == init + [last];
    if init != [] {
      DecimalShortest(init);
      var n := DecimalValue(d);
      assert n / 10 == DecimalValue(init) && n % 10 == DigitValue(last);
    } else {
      assert DecimalValue(init) == 0;
    }
  }

  lemma {:induction false} DigitsRun(t: string)
    ensures AllDigits(t[..DigitRun(t)])
  {
    if t != [] && IsDigit(t[0]) {
      DigitsRun(t[1..]);
      assert t[..DigitRun(t)] == [t[0]] + t[1..][..DigitRun(t[1..])];
    }
  }

  lemma NumberOver(t: string, n: u32)
    requires t != [] && IsDigit(t[0]) && ParseU32(t[..DigitRun(t)]) == Some(n)
    ensures Over(t, t[DigitRun(t)..], Decimal(n))
  {
    hide Decimal;
    var k := DigitRun(t);
    var d := t[..k];
    DigitsRun(t);
    assert d[0] == t[0];
    DecimalShortest(d);
    if |d| == |Decimal(n)| { OverSame(t, d); }
  }

  // ----- values -----

  /** `w` spells the tree `v` with the members of every object in `v`'s order. */
  ghost predicate SpellsInOrder(v: Cv, w: Value)
    decreases v
  {
    match v
    case Str(s) => w == String(s)
    case U32(n) => w.Number? && ParseU32(w.text) == Some(n)
    case Arr(items) =>
      w.Array? && |w.items| == |items| && forall i :: 0 <= i < |items| ==> SpellsInOrder(items[i], w.items[i])
    case Obj(ms) =>
      && w.Object? && |w.members| == |ms|
      && forall i :: 0 <= i < |ms| ==> ms[i].key == w.members[i].key && SpellsInOrder(ms[i].val, w.members[i].val)
  }

  /** Every text that is read as a spelling of the tree is over what the emitter writes. */
  lemma {:induction false} ValueOver(t: string, v: Cv, w: Value, r: string)
    requires ReadValue(t) == Some(Read(w, r)) && SpellsInOrder(v, w)
    ensures Over(t, r, Emit(v))
    decreases |t|, 1
  {
    hide Over, Decimal, EscapeAll, ReadChars;
    if t[0] == '"' {
      StringOver(t, w.s, r);
    } else if IsDigit(t[0]) {
      NumberOver(t, v.n);
    } else if t[0] == '[' {
      if |t| > 1 && t[1] == ']' {
        EmptyOver(t, "[]");
        assert Emit(v) == "[]";
      } else {
        ArrayOver(t, v.items, w.items, r);
      }
    } else if |t| > 1 && t[1] == '}' {
      EmptyOver(t, "{}");
      assert Emit(v) == "{}";
    } else {
      ObjectOver(t, v.members, w.members, r);
    }
  }

  lemma EmptyOver(t: string, c: string)
    requires |t| > 1 && |c| == 2 && t[0] == c[0] && t[1] == c[1]
    ensures Over(t, t[2..], c)
  {
    OverSame(t, c);
  }

  ghost predicate ItemsSpelled(items: seq<Cv>, ws: seq<Value>) {
    |ws| == |items| && forall i :: 0 <= i < |items| ==> SpellsInOrder(items[i], ws[i])
  }

  ghost predicate MembersSpelled(ms: seq<Member>, fs: seq<Field>) {
    |fs| == |ms| && forall i :: 0 <= i < |ms| ==> ms[i].key == fs[i].key && SpellsInOrder(ms[i].val, fs[i].val)
  }

  lemma ArrayOver(t: string, items: seq<Cv>, ws: seq<Value>, r: string)
    requires t != [] && t[0] == '[' && ReadItems(t[1..]) == Some(Read(ws, r)) && ItemsSpelled(items, ws)
    ensures Over(t, r, "[" + Join(ItemTexts(items)) + "]")
    decreases |t|, 0
  {
    hide Over, ReadItems, ReadValue, Join;
    OverSame(t, "[");
    ItemsOver(t[1..], items, ws, r);
    OverThen(t, t[1..], r, "[", Join(ItemTexts(items)) + "]");
    assert "[" + (Join(ItemTexts(items)) + "]") == "[" + Join(ItemTexts(items)) + "]";
  }

  lemma ObjectOver(t: string, ms: seq<Member>, fs: seq<Field>, r: string)
    requires t != [] && t[0] == '{' && ReadMembers(t[1..]) == Some(Read(fs, r)) && MembersSpelled(ms, fs)
    ensures Over(t, r, "{" + Join(MemberTexts(ms)) + "}")
    decreases |t|, 0
  {
    hide Over, ReadMembers, ReadValue, Join;
    OverSame(t, "{");
    MembersOver(t[1..], ms, fs, r);
    OverThen(t, t[1..], r, "{", Join(MemberTexts(ms)) + "}");
    assert "{" + (Join(MemberTexts(ms)) + "}") == "{" + Join(MemberTexts(ms)) + "}";
  }

  /** One part, the comma and the parts after it. */
  lemma PartsOver(t: string, mid: string, r: string, part: string, more: string)
    requires Over(t, mid, part) && mid != [] && mid[0] == ',' && Over(mid[1..], r, more)
    ensures Over(t, r, part + "," + more)
  {
    hide Over;
    OverSame(mid, ",");
    OverThen(mid, mid[1..], r, ",", more);
    OverThen(t, mid, r, part, "," + more);
    assert part + ("," + more) == part + "," + more;
  }

  lemma LastOver(t: string, mid: string, part: string, close: string)
    requires Over(t, mid, part) && mid != [] && close == [mid[0]]
    ensures Over(t, mid[1..], part + close)
  {
    hide Over;
    OverSame(mid, close);
    OverThen(t, mid, mid[1..], part, close);
  }

  lemma {:induction false} ItemsOver(t: string, items: seq<Cv>, ws: seq<Value>, r: string)
    requires ReadItems(t) == Some(Read(ws, r)) && ItemsSpelled(items, ws)
    ensures Over(t, r, Join(ItemTexts(items)) + "]")
    decreases |t|, 2
  {
    hide Over, ReadValue, SpellsInOrder, Emit;
    var v := ReadValue(t).value;
    ValueOver(t, items[0], v.value, v.rest);
    if v.rest[0] == ']' {
      assert Join(ItemTexts(items)) == Emit(items[0]);
      LastOver(t, v.rest, Emit(items[0]), "]");
    } else {
      ItemsOver(v.rest[1..], items[1..], ws[1..], r);
      PartsOver(t, v.rest, r, Emit(items[0]), Join(ItemTexts(items[1..])) + "]");
      assert ItemTexts(items)[1..] == ItemTexts(items[1..]);
      ConcatAssociative(Emit(items[0]) + ",", Join(ItemTexts(items[1..])), "]");
    }
  }

  lemma {:induction false} MembersOver(t: string, ms: seq<Member>, fs: seq<Field>, r: string)
    requires ReadMembers(t) == Some(Read(fs, r)) && MembersSpelled(ms, fs)
    ensures Over(t, r, Join(MemberTexts(ms)) + "}")
    decreases |t|, 3
  {
    hide Over, ReadMember, SpellsInOrder, Emit, Quoted;
    var m := ReadMember(t).value;
    var text := Quoted(ms[0].key) + ":" + Emit(ms[0].val);
    MemberOver(t, ms[0], m.value, m.rest);
    if m.rest[0] == '}' {
      assert Join(MemberTexts(ms)) == text;
      LastOver(t, m.rest, text, "}");
    } else {
      MembersOver(m.rest[1..], ms[1..], fs[1..], r);
      PartsOver(t, m.rest, r, text, Join(MemberTexts(ms[1..])) + "}");
      assert MemberTexts(ms)[1..] == MemberTexts(ms[1..]);
      ConcatAssociative(text + ",", Join(MemberTexts(ms[1..])), "}");
    }
  }

  lemma MemberOver(t: string, m: Member, f: Field, r: string)
    requires ReadMember(t) == Some(Read(f, r)) && m.key == f.key && SpellsInOrder(m.val, f.val)
    ensures Over(t, r, Quoted(m.key) + ":" + Emit(m.val))
    decreases |t|, 2
  {
    hide Over, ReadValue, ReadChars, SpellsInOrder, Emit, Quoted;
    var key := ReadChars(t[1..]).value;
    StringOver(t, m.key, key.rest);
    LastOver(t, key.rest, Quoted(m.key), ":");
    ValueOver(key.rest[1..], m.val, f.val, r);
    OverThen(t, key.rest[1..], r, Quoted(m.key) + ":", Emit(m.val));
  }

  // ----- documents -----

  /** Every object of the value lists its keys in ascending order. */
  ghost predicate KeysAscend(w: Value)
    decreases w
  {
    match w
    case Array(items) => forall i :: 0 <= i < |items| ==> KeysAscend(items[i])
    case Object(ms) =>
      && (forall i, j :: 0 <= i < j < |ms| ==> KeyBefore(ms[i].key, ms[j].key))
      && (forall i :: 0 <= i < |ms| ==> KeysAscend(ms[i].val))
    case _ => true
  }

  lemma PermSorted(ms: seq<Member>, perm: seq<Member>)
    requires multiset(perm) == multiset(ms) && Ascending(perm)
    ensures perm == SortMembers(ms)
  {
    hide KeyBefore, SortMembers;
    assert DistinctKeys(perm) by {
      forall i, j | 0 <= i < j < |perm| ensures perm[i].key != perm[j].key { KeyIrreflexive(perm[i].key); }
    }
    forall x ensures x in perm <==> x in ms {
      assert x in perm <==> x in multiset(perm);
      assert x in ms <==> x in multiset(ms);
    }
    forall i | 0 <= i < |ms| ensures ms[i] in perm { assert ms[i] in ms; }
    PermutationDistinct(perm, ms);
    SortAscends(ms);
    ByKeyIsOrder();
    SortedUnique(perm, SortMembers(ms), ByKey());
  }

  /** A spelling with ascending keys spells the canonical order. */
  lemma {:induction false} AscendingSpells(v: Cv, w: Value)
    requires Spells(v, w) && KeysAscend(w)
    ensures SpellsInOrder(Norm(v), w)
    decreases v
  {
    match v
    case Str(_) =>
    case U32(_) =>
    case Arr(items) =>
      forall i | 0 <= i < |items| ensures SpellsInOrder(Norm(v).items[i], w.items[i]) {
        AscendingSpells(items[i], w.items[i]);
      }
    case Obj(ms) =>
      var perm: seq<Member> :| Matches(ms, perm, w.members);
      ObjectInOrder(ms, perm, w.members);
      forall i | 0 <= i < |perm| ensures SpellsInOrder(Norm(perm[i].val), w.members[i].val) {
        assert perm[i] in ms;
        AscendingSpells(perm[i].val, w.members[i].val);
      }
  }

  lemma ObjectInOrder(ms: seq<Member>, perm: seq<Member>, fs: seq<Field>)
    requires Matches(ms, perm, fs) && KeysAscend(Object(fs))
    ensures Norm(Obj(ms)) == Obj(NormMembers(perm))
  {
    hide KeyBefore, Spells, SortMembers;
    forall i, j | 0 <= i < j < |perm| ensures KeyBefore(perm[i].key, perm[j].key) {
      assert perm[i].key == fs[i].key && perm[j].key == fs[j].key;
    }
    PermSorted(ms, perm);
    SortThenNorm(ms);
  }

  /** The canonical text of a tree is the shortest of all that spell it with ascending keys,
      and every text as long as it is the same but for capital hex digits. */
  lemma TextShortest(v: Cv, t: string, w: Value)
    requires ReadValue(t) == Some(Read(w, [])) && KeysAscend(w) && Spells(v, w)
    ensures |t| >= |Canonical(v)|
    ensures |t| == |Canonical(v)| ==> Alike(t, Canonical(v))
  {
    hide Spells, SpellsInOrder, Emit, ReadValue, KeysAscend, Norm;
    AscendingSpells(v, w);
    ValueOver(t, Norm(v), w, []);
    assert Canonical(v) + [] == Canonical(v);
  }

  /** So the canonical text of a document is the shortest of all texts that mean it. */
  lemma CanonicalShortest(doc: PolicyDoc, t: string, w: Value)
    requires ReadValue(t) == Some(Read(w, [])) && KeysAscend(w) && FromJson(w) == Ok(doc)
    ensures |t| >= |CanonicalJson(doc)|
    ensures |t| == |CanonicalJson(doc)| ==> Alike(t, CanonicalJson(doc))
  {
    hide Spells, FromJson, DocToCv, ReadValue, KeysAscend, Canonical;
    FromJsonIff(w, doc);
    TextShortest(DocToCv(doc), t, w);
  }

  /** And likewise what a rule's provenance hash is taken of. */
  lemma RuleShortest(rule: Rule, t: string, w: Value)
    requires ReadValue(t) == Some(Read(w, [])) && KeysAscend(w) && RuleFromValue(w) == Ok(rule)
    ensures |t| >= |RuleCanonicalJson(rule)|
    ensures |t| == |RuleCanonicalJson(rule)| ==> Alike(t, RuleCanonicalJson(rule))
  {
    hide Spells, RuleFromValue, RuleToCv, ReadValue, KeysAscend, Canonical;
    RuleIff(w, rule);
    TextShortest(RuleToCv(rule), t, w);
  }

  // ----- the canonical text is one of them -----

  /** No object of the tree repeats a key. */
  ghost predicate KeysDistinct(v: Cv)
    decreases v
  {
    match v
    case Arr(items) => forall i :: 0 <= i < |items| ==> KeysDistinct(items[i])
    case Obj(ms) => DistinctKeys(ms) && forall i :: 0 <= i < |ms| ==> KeysDistinct(ms[i].val)
    case _ => true
  }

  lemma {:induction false} NormAscends(v: Cv)
    requires KeysDistinct(v)
    ensures KeysAscend(Tree(Norm(v)))
    decreases v
  {
    match v
    case Str(_) =>
    case U32(_) =>
    case Arr(items) =>
      forall i | 0 <= i < |items| ensures KeysAscend(Tree(Norm(v)).items[i]) { NormAscends(items[i]); }
    case Obj(ms) =>
      var sorted := SortMembers(ms);
      SortAscends(ms);
      SortThenNorm(ms);
      forall i | 0 <= i < |sorted| ensures KeysAscend(Tree(Norm(sorted[i].val))) {
        assert sorted[i] in sorted;
        NormAscends(sorted[i].val);
      }
      FieldsAscend(ms, sorted);
  }

  lemma FieldsAscend(ms: seq<Member>, sorted: seq<Member>)
    requires Ascending(sorted) && Norm(Obj(ms)) == Obj(NormMembers(sorted))
    requires forall i :: 0 <= i < |sorted| ==> KeysAscend(Tree(Norm(sorted[i].val)))
    ensures KeysAscend(Tree(Norm(Obj(ms))))
  {
    hide KeyBefore, Norm;
    var fs := Tree(Norm(Obj(ms))).members;
    assert forall i :: 0 <= i < |sorted| ==> fs[i] == Field(sorted[i].key, Tree(Norm(sorted[i].val)));
  }

  /** A present value repeats no key. */
  ghost predicate OptDistinct(o: Option<Cv>) {
    o.Some? ==> KeysDistinct(o.value)
  }

  lemma {:induction false} RecordDistinct(keys: seq<string>, vals: seq<Option<Cv>>)
    requires |keys| == |vals| && NoDuplicates(keys) && forall i :: 0 <= i < |vals| ==> OptDistinct(vals[i])
    ensures KeysDistinct(Record(keys, vals))
  {
    MembersAgree([], keys, vals);
    MemberValues(keys, vals);
  }

  lemma {:induction false} MemberValues(keys: seq<string>, vals: seq<Option<Cv>>)
    requires |keys| == |vals| && forall i :: 0 <= i < |vals| ==> OptDistinct(vals[i])
    ensures forall i :: 0 <= i < |Members(keys, vals)| ==> KeysDistinct(Members(keys, vals)[i].val)
  {
    hide KeysDistinct;
    if keys != [] {
      var n := |keys| - 1;
      assert OptDistinct(vals[n]);
      forall i | 0 <= i < n ensures OptDistinct(vals[..n][i]) { assert OptDistinct(vals[i]); }
      MemberValues(keys[..n], vals[..n]);
    }
  }

  /** Strings, numbers and lists of strings have no keys. */
  lemma NoKeys()
    ensures forall s: string {:trigger OfStr(s)} :: OptDistinct(OfStr(s))
    ensures forall n: u32 {:trigger OfU32(n)} :: OptDistinct(OfU32(n))
    ensures forall ss: seq<string> {:trigger OfStrs(ss)} :: OptDistinct(OfStrs(ss))
    ensures forall o: Option<string> {:trigger OptStr(o)} :: OptDistinct(OptStr(o))
    ensures forall o: Option<u32> {:trigger OptU32(o)} :: OptDistinct(OptU32(o))
    ensures forall o: Option<seq<string>> {:trigger OptStrs(o)} :: OptDistinct(OptStrs(o))
  {
    forall ss: seq<string> ensures OptDistinct(OfStrs(ss)) {
      forall i | 0 <= i < |ss| ensures KeysDistinct(Strs(ss)[i]) { assert Strs(ss)[i].Str?; }
      assert KeysDistinct(Arr(Strs(ss)));
    }
  }

  lemma ScopeDistinct(sc: Scope)
    ensures KeysDistinct(ScopeToCv(sc))
  {
    hide KeysDistinct, OptDistinct;
    NoKeys();
    match sc
    case ContractScope(address) => RecordDistinct(TYPE_ADDRESS, [OfStr("contract"), OfStr(address)]);
    case SelfAdmin => RecordDistinct(["type"], [OfStr("self-admin")]);
  }

  lemma PrincipalsDistinct(p: Principals)
    ensures KeysDistinct(PrincipalsToCv(p))
  {
    hide KeysDistinct, OptDistinct;
    NoKeys();
    match p
    case AllOfThem(ids) => RecordDistinct(ALL_KEYS, [OfStr("all"), OfStrs(ids)]);
    case Threshold(ids, m) => RecordDistinct(THRESHOLD_KEYS, [OfStr("threshold"), OfStrs(ids), OfU32(m)]);
    case SelfAuthenticating(policy, param, ack) =>
      RecordDistinct(SELF_AUTH_KEYS, [OfStr("self-authenticating"), OfStr(policy), OfStr(param), OfStr(ack)]);
  }

  lemma PredDistinct(p: ArgPred)
    ensures KeysDistinct(PredToCv(p))
  {
    hide KeysDistinct, OptDistinct;
    NoKeys();
    match p
    case IsSelf => RecordDistinct(["type"], [OfStr("is-self")]);
    case AddressEq(address) => RecordDistinct(TYPE_ADDRESS, [OfStr("address-eq"), OfStr(address)]);
    case StringIn(values) => RecordDistinct(["type", "values"], [OfStr("string-in"), OfStrs(values)]);
    case StringPrefix(prefix) => RecordDistinct(["type", "prefix"], [OfStr("string-prefix"), OfStr(prefix)]);
    case U32Eq(value) => RecordDistinct(["type", "value"], [OfStr("u32-eq"), OfU32(value)]);
  }

  lemma ArgsDistinct(o: Option<seq<ArgConstraint>>)
    ensures OptDistinct(OptArgs(o))
  {
    if o.Some? {
      forall i | 0 <= i < |o.value| ensures KeysDistinct(ArgsToCv(o.value)[i]) { ArgDistinct(o.value[i]); }
    }
  }

  lemma ArgDistinct(a: ArgConstraint)
    ensures KeysDistinct(ArgConstraintToCv(a))
  {
    hide KeysDistinct;
    PredDistinct(a.pred);
    NoKeys();
    RecordDistinct(ARG_KEYS, [OfU32(a.index), Some(PredToCv(a.pred))]);
  }

  lemma CapDistinct(o: Option<CapConstraint>)
    ensures OptDistinct(OptCap(o))
  {
    hide KeysDistinct;
    NoKeys();
    if o.Some? {
      var cap := o.value;
      RecordDistinct(CAP_KEYS, [OptStr(cap.token), OfStr(cap.limit), OfU32(cap.periodLedgers)]);
    }
  }

  lemma RuleDistinct(r: Rule)
    ensures KeysDistinct(RuleToCv(r))
  {
    hide KeysDistinct;
    NoKeys();
    ScopeDistinct(r.scope);
    PrincipalsDistinct(r.principals);
    ArgsDistinct(r.args);
    CapDistinct(r.cap);
    hide OptArgs, OptCap, OptStrs, OptU32, ScopeToCv, PrincipalsToCv;
    RecordDistinct(RULE_KEYS,
                   [OfStr(r.name), Some(ScopeToCv(r.scope)), Some(PrincipalsToCv(r.principals)), OptStrs(r.functions),
                    OptArgs(r.args), OptU32(r.notAfterLedger), OptCap(r.cap)]);
  }

  lemma SignerDistinct(s: SignerDecl)
    ensures KeysDistinct(SignerToCv(s))
  {
    hide KeysDistinct, OptDistinct;
    NoKeys();
    match s.how
    case External(verifier, key) => RecordDistinct(EXTERNAL_KEYS, [OfStr(s.id), OfStr(verifier), OfStr(key)]);
    case Delegated(address) => RecordDistinct(DELEGATED_KEYS, [OfStr(s.id), OfStr(address)]);
  }

  lemma ModeDistinct(mode: RecoveryMode)
    ensures KeysDistinct(ModeToCv(mode))
  {
    hide KeysDistinct, OptDistinct, NoDuplicates;
    NoKeys();
    ModeKeys();
    match mode
    case GuardianOnly(g) =>
      RecordDistinct(GUARDIAN_KEYS, [OfStr("guardian-only"), OfStrs(g.guardians), OfU32(g.quorum)]);
    case ZkOnly(z) =>
      RecordDistinct(ZK_KEYS, [OfStr("zk-only"), OfStr(z.adapter), OfStr(z.circuitId), OfStr(z.pool),
                               OfStr(z.enrollmentId), OfStr(z.commitment)]);
    case Combined(g, z) =>
      RecordDistinct(COMBINED_KEYS, [OfStr("combined"), OfStrs(g.guardians), OfU32(g.quorum),
                                     OfStr(z.adapter), OfStr(z.circuitId), OfStr(z.pool), OfStr(z.enrollmentId),
                                     OfStr(z.commitment)]);
  }

  lemma ModeKeys()
    ensures NoDuplicates(GUARDIAN_KEYS) && NoDuplicates(ZK_KEYS) && NoDuplicates(COMBINED_KEYS)
  {
  }

  lemma BaselineDistinct(o: Option<string>)
    ensures OptDistinct(OptBaseline(o))
  {
    hide KeysDistinct;
    NoKeys();
    if o.Some? { RecordDistinct(["doc-hash"], [OfStr(o.value)]); }
  }

  lemma RecoveryDistinct(o: Option<RecoveryConfig>)
    ensures OptDistinct(OptRecovery(o))
  {
    hide KeysDistinct;
    NoKeys();
    if o.Some? {
      var r := o.value;
      ModeDistinct(r.mode);
      BaselineDistinct(r.baseline);
      RecordDistinct(RECOVERY_KEYS,
                     [OfStr(ProfileStr(r.profile)), Some(ModeToCv(r.mode)), OfStr(r.controller),
                      OptBaseline(r.baseline), OfStrs(r.replaceableIds), OfU32(r.delayLedgers),
                      OfU32(r.expiryLedgers), OfU32(r.maxCancels)]);
    }
  }

  lemma DocDistinct(doc: PolicyDoc)
    ensures KeysDistinct(DocToCv(doc))
  {
    NoKeys();
    forall i | 0 <= i < |doc.signers| ensures KeysDistinct(SignersToCv(doc.signers)[i]) {
      SignerDistinct(doc.signers[i]);
    }
    forall i | 0 <= i < |doc.rules| ensures KeysDistinct(RulesToCv(doc.rules)[i]) { RuleDistinct(doc.rules[i]); }
    RecoveryDistinct(doc.recovery);
    assert KeysDistinct(Arr(SignersToCv(doc.signers))) && KeysDistinct(Arr(RulesToCv(doc.rules)));
    RecordDistinct(DOC_KEYS,
                   [OfU32(doc.version), OptStr(doc.network), Some(Arr(SignersToCv(doc.signers))),
                    Some(Arr(RulesToCv(doc.rules))), OptRecovery(doc.recovery)]);
  }

  /** The canonical text of a document is itself one that means it, with ascending keys. */
  lemma CanonicalQualifies(doc: PolicyDoc)
    requires doc.version == 1
    ensures var w := Tree(Norm(DocToCv(doc)));
            ReadValue(CanonicalJson(doc)) == Some(Read(w, [])) && KeysAscend(w) && FromJson(w) == Ok(doc)
  {
    hide Spells, FromJson, DocToCv, Emit, ReadValue, Tree, KeysAscend, KeysDistinct;
    var v := DocToCv(doc);
    assert Canonical(v) + [] == Canonical(v);
    ReadEmit(Norm(v), []);
    CanonicalRoundTrip(doc);
    DocDistinct(doc);
    NormAscends(v);
  }
}
