/** The one member order of the canonical text (section 3.2.3 of RFC 8785). */
module Order {
  import opened Base
  import opened Lex
  import opened Canon

  /** The scalar value of a code unit or of a surrogate pair (section 2.5 of the Unicode
      Standard's core specification). */
  function UnitsValue(u: seq<int>): int
    requires 1 <= |u| <= 2
  {
    if |u| == 1 then u[0] else 0x1_0000 + 0x400 * (u[0] - 0xD800) + (u[1] - 0xDC00)
  }

  /** The units are 16-bit, pairs are surrogates, single units are not, and they decode to the
      character. */
  lemma UnitsMean(c: char)
    ensures UnitsValue(Units(c)) == c as int
    ensures forall k :: 0 <= k < |Units(c)| ==> 0 <= Units(c)[k] < 0x1_0000
    ensures |Units(c)| == 1 <==> !(0xD800 <= Units(c)[0] < 0xE000)
    ensures |Units(c)| == 2 ==> Units(c)[0] < 0xDC00 <= Units(c)[1] < 0xE000
  {
  }

  /** A surrogate starts a pair, and nothing else. */
  lemma UnitsPrefixFree(c: char, d: char, r: seq<int>, t: seq<int>)
    requires Units(c) + r == Units(d) + t
    ensures c == d && r == t
  {
    var u, v := Units(c), Units(d);
    assert u[0] == (u + r)[0] == (v + t)[0] == v[0];
    SplitConcat(u, r, v, t);
  }

  lemma {:induction false} Utf16Injective(a: string, b: string)
    requires Utf16(a) == Utf16(b)
    ensures a == b
  {
    if a != [] && b != [] {
      assert Utf16(a) == Units(a[0]) + Utf16(a[1..]) && Utf16(b) == Units(b[0]) + Utf16(b[1..]);
      UnitsPrefixFree(a[0], b[0], Utf16(a[1..]), Utf16(b[1..]));
      Utf16Injective(a[1..], b[1..]);
      assert a == [a[0]] + a[1..] && b == [b[0]] + b[1..];
    } else {
      Utf16Empty(a);
      Utf16Empty(b);
    }
  }

  lemma Utf16Empty(a: string)
    ensures Utf16(a) == [] <==> a == []
  {
  }

  ghost predicate Ascending(ms: seq<Member>) {
    forall i, j :: 0 <= i < j < |ms| ==> KeyBefore(ms[i].key, ms[j].key)
  }

  ghost predicate Fresh(m: Member, ms: seq<Member>) {
    forall i :: 0 <= i < |ms| ==> ms[i].key != m.key
  }

  lemma KeyTotal(a: string, b: string)
    ensures a == b || KeyBefore(a, b) || KeyBefore(b, a)
  {
    LexTotal(Utf16(a), Utf16(b));
    if Utf16(a) == Utf16(b) { Utf16Injective(a, b); }
  }

  lemma KeyTransitive(a: string, b: string, c: string)
    requires KeyBefore(a, b) && KeyBefore(b, c)
    ensures KeyBefore(a, c)
  {
    LexTransitive(Utf16(a), Utf16(b), Utf16(c));
  }

  lemma {:induction false} InsertAscends(m: Member, ms: seq<Member>)
    requires Ascending(ms) && Fresh(m, ms)
    ensures Ascending(Insert(m, ms))
    ensures forall x :: x in Insert(m, ms) <==> x == m || x in ms
  {
    hide KeyBefore;
    if ms == [] {
    } else if !KeyBefore(ms[0].key, m.key) {
      KeyTotal(ms[0].key, m.key);
      var all := [m] + ms;
      forall j | 1 <= j < |all| ensures KeyBefore(m.key, all[j].key) {
        if j > 1 { KeyTransitive(m.key, ms[0].key, ms[j-1].key); }
      }
    } else {
      InsertAscends(m, ms[1..]);
      var rest := Insert(m, ms[1..]);
      forall j | 0 <= j < |rest| ensures KeyBefore(ms[0].key, rest[j].key) {
        assert rest[j] in rest;
        assert rest[j] == m || rest[j] in ms[1..];
      }
      assert ms == [ms[0]] + ms[1..];
    }
  }

  /** Sorting puts distinct keys in strictly ascending code-unit order and keeps exactly
      the members. */
  lemma {:induction false} SortAscends(ms: seq<Member>)
    requires DistinctKeys(ms)
    ensures Ascending(SortMembers(ms))
    ensures forall x :: x in SortMembers(ms) <==> x in ms
  {
    hide KeyBefore, Insert;
    if ms != [] {
      SortAscends(ms[1..]);
      var rest := SortMembers(ms[1..]);
      assert ms == [ms[0]] + ms[1..];
      forall i | 0 <= i < |rest| ensures rest[i].key != ms[0].key {
        assert rest[i] in rest;
        var k :| 0 <= k < |ms[1..]| && ms[1..][k] == rest[i];
        assert ms[k + 1] == rest[i];
      }
      InsertAscends(ms[0], rest);
    }
  }

  function ByKey(): (Member, Member) -> bool {
    (m: Member, n: Member) => KeyBefore(m.key, n.key)
  }

  lemma ByKeyIsOrder()
    ensures StrictOrder(ByKey())
  {
    hide KeyBefore;
    forall m: Member ensures !ByKey()(m, m) { KeyIrreflexive(m.key); }
    forall p: Member, q: Member, r: Member | ByKey()(p, q) && ByKey()(q, r) ensures ByKey()(p, r) {
      KeyTransitive(p.key, q.key, r.key);
    }
  }

  lemma KeyIrreflexive(a: string)
    ensures !KeyBefore(a, a)
  {
    LexIrreflexive(Utf16(a));
  }

  /** The canonical text of an object does not depend on the order its members came in,
      and writes them in strictly ascending order. */
  lemma CanonicalOrderFree(a: seq<Member>, b: seq<Member>)
    requires DistinctKeys(a) && DistinctKeys(b)
    requires forall m :: m in a <==> m in b
    ensures Canonical(Obj(a)) == Canonical(Obj(b))
    ensures Canonical(Obj(a)) == Emit(Obj(NormMembers(SortMembers(a)))) && Ascending(SortMembers(a))
  {
    hide Emit, KeyBefore, DistinctKeys, StrictOrder;
    SortAscends(a);
    SortAscends(b);
    ByKeyIsOrder();
    SortedUnique(SortMembers(a), SortMembers(b), ByKey());
    SortThenNorm(a);
    SortThenNorm(b);
  }
}
