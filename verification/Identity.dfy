/** What the canonical text identifies: one document, one rule, one recovery member. */
module Identity {
  import opened Base
  import opened Text
  import opened Doc
  import opened Canon
  import opened Json
  import opened Reader
  import opened RoundTrip

  /** A tree is spelled by its canonical ordering. */
  lemma {:induction false} NormSpells(v: Cv)
    ensures Spells(v, Tree(Norm(v)))
    decreases v
  {
    match v
    case Str(_) =>
    case U32(n) => ParseDecimal(n);
    case Arr(items) =>
      forall i | 0 <= i < |items| ensures Spells(items[i], Tree(Norm(v)).items[i]) { NormSpells(items[i]); }
    case Obj(ms) =>
      var perm := SortMembers(ms);
      SortKeepsMembers(ms);
      SortThenNorm(ms);
      var obj := Tree(Norm(v)).members;
      assert obj == Fields(NormMembers(perm));
      forall i | 0 <= i < |perm|
        ensures perm[i] in ms && perm[i].key == obj[i].key && Spells(perm[i].val, obj[i].val)
      {
        NormSpells(perm[i].val);
      }
      assert Matches(ms, perm, obj);
  }

  /** Trees with the same canonical text are spelled by a common value. */
  lemma CommonSpelling(v: Cv, u: Cv) returns (w: Value)
    requires Canonical(v) == Canonical(u)
    ensures Spells(v, w) && Spells(u, w)
  {
    w := Tree(Norm(v));
    assert Canonical(v) + [] == Canonical(v) && Canonical(u) + [] == Canonical(u);
    ReadEmit(Norm(v), []);
    ReadEmit(Norm(u), []);
    NormSpells(v);
    NormSpells(u);
  }

  /** The canonical round trip: reading the canonical text of a version-1 document and
      walking the value gives the document back. */
  lemma CanonicalRoundTrip(d: PolicyDoc)
    requires d.version == 1
    ensures ReadValue(CanonicalJson(d)).Some? && ReadValue(CanonicalJson(d)).value.rest == []
    ensures FromJson(ReadValue(CanonicalJson(d)).value.value) == Ok(d)
  {
    hide Spells, FromJson, DocToCv, Emit, ReadValue, Tree;
    var v := DocToCv(d);
    assert Canonical(v) + [] == Canonical(v);
    ReadEmit(Norm(v), []);
    NormSpells(v);
    FromJsonIff(Tree(Norm(v)), d);
  }

  /** The canonical text identifies the document. */
  lemma CanonicalJsonInjective(d: PolicyDoc, e: PolicyDoc)
    requires CanonicalJson(d) == CanonicalJson(e)
    ensures d == e
  {
    hide Canonical, Spells;
    var w := CommonSpelling(DocToCv(d), DocToCv(e));
    DocIff(w, d);
    DocIff(w, e);
  }

  /** A rule's provenance preimage identifies the rule. */
  lemma RulePreimageInjective(r: Rule, q: Rule)
    requires RulePreimage(r) == RulePreimage(q)
    ensures r == q
  {
    hide Canonical, Spells;
    SplitConcat(RULE_HASH_DOMAIN, RuleCanonicalJson(r), RULE_HASH_DOMAIN, RuleCanonicalJson(q));
    var w := CommonSpelling(RuleToCv(r), RuleToCv(q));
    RuleIff(w, r);
    RuleIff(w, q);
  }

  /** The canonical recovery member identifies the recovery configuration. */
  lemma RecoveryJsonInjective(r: RecoveryConfig, q: RecoveryConfig)
    requires RecoveryCanonicalJson(r) == RecoveryCanonicalJson(q)
    ensures r == q
  {
    hide Canonical, Spells;
    var w := CommonSpelling(RecoveryToCv(r), RecoveryToCv(q));
    RecoveryIff(w, r);
    RecoveryIff(w, q);
  }
}
