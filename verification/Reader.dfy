/** Reading canonical text back: a reference reader for JSON without insignificant
    whitespace (sections 5 to 7 of RFC 8259), proved to invert the emitter. */
module Reader {
  import opened Base
  import opened Text
  import opened Canon
  import opened Json

  /** The JSON value a tree denotes. */
  function Tree(v: Cv): Value
    decreases v, 1
  {
    match v
    case Str(s) => String(s)
    case U32(n) => Number(Decimal(n), true)
    case Arr(items) => Array(Trees(items))
    case Obj(ms) => Object(Fields(ms))
  }

  function Trees(items: seq<Cv>): (r: seq<Value>)
    ensures |r| == |items|
    decreases items, 0
  {
    seq(|items|, i requires 0 <= i < |items| => Tree(items[i]))
  }

  function Fields(ms: seq<Member>): (r: seq<Field>)
    ensures |r| == |ms|
    decreases ms, 0
  {
    seq(|ms|, i requires 0 <= i < |ms| => Field(ms[i].key, Tree(ms[i].val)))
  }

  // ----- strings -----

  datatype Read<+T> = Read(value: T, rest: string)

  /** The two-character escapes of section 7 of RFC 8259. */
  function Unescape(c: char): Option<char> {
    match c
    case '"' => Some('"') case '\\' => Some('\\') case '/' => Some('/')
    case 'b' => Some(8 as char) case 'f' => Some(12 as char) case 'n' => Some(10 as char)
    case 'r' => Some(13 as char) case 't' => Some(9 as char)
    case _ => None
  }

  /** Four hex digits as a UTF-16 code unit. */
  function CodeUnit(t: string): Option<nat>
    requires |t| >= 4
  {
    var w :- Nibble(t[0]);
    var x :- Nibble(t[1]);
    var y :- Nibble(t[2]);
    var z :- Nibble(t[3]);
    Some(4096 * w + 256 * x + 16 * y + z)
  }

  predicate StartsUnit(t: string) {
    |t| >= 6 && t[0] == '\\' && t[1] == 'u'
  }

  /** A character written as one code unit, or as a surrogate pair. */
  function ReadUnits(t: string): (r: Option<Read<char>>)
    requires StartsUnit(t)
    ensures r.Some? ==> |r.value.rest| <= |t| - 6
  {
    var n :- CodeUnit(t[2..]);
    if n < 0xD800 || 0xE000 <= n < 0x1_0000 then Some(Read(n as char, t[6..]))
    else if n < 0xDC00 && StartsUnit(t[6..]) then
      var low :- CodeUnit(t[8..]);
      if 0xDC00 <= low < 0xE000 then Some(Read((0x1_0000 + 0x400 * (n - 0xD800) + low - 0xDC00) as char, t[12..]))
      else None
    else None
  }

  function ReadChar(t: string): (r: Option<Read<char>>)
    requires t != []
    ensures r.Some? ==> |r.value.rest| < |t|
  {
    if t[0] != '\\' then
      if t[0] as int < 0x20 then None else Some(Read(t[0], t[1..]))
    else if StartsUnit(t) then ReadUnits(t)
    else if |t| >= 2 then
      match Unescape(t[1]) case Some(c) => Some(Read(c, t[2..])) case None => None
    else None
  }

  /** The characters up to the closing quote. */
  function ReadChars(t: string): (r: Option<Read<string>>)
    ensures r.Some? ==> |r.value.rest| < |t|
    decreases |t|
  {
    if t == [] then None
    else if t[0] == '"' then Some(Read("", t[1..]))
    else
      var first :- ReadChar(t);
      var more :- ReadChars(first.rest);
      Some(Read([first.value] + more.value, more.rest))
  }

  lemma HexDigitValue(n: nibble)
    ensures Nibble(HexDigit(n)) == Some(n)
  {
  }

  lemma ReadControl(c: char, t: string)
    requires |Escape(c)| == 6
    ensures ReadChar(Escape(c) + t) == Some(Read(c, t))
  {
    var n, e := c as int, Escape(c);
    HexDigitValue(n / 16);
    HexDigitValue(n % 16);
    HexDigitValue(0);
    assert e[0] == '\\' && e[1] == 'u' && e[2] == e[3] == '0' && e[4] == HexDigit(n / 16) && e[5] == HexDigit(n % 16);
    assert (e + t)[6..] == t;
    assert (e + t)[2..][..4] == e[2..];
  }

  /** Each escape denotes the character it was written for. */
  lemma ReadEscape(c: char, t: string)
    ensures ReadChar(Escape(c) + t) == Some(Read(c, t))
  {
    var e := Escape(c);
    if |e| == 6 {
      ReadControl(c, t);
    } else {
      assert (e + t)[|e|..] == t;
    }
  }

  lemma {:induction false} EscapeFront(s: string)
    requires s != []
    ensures EscapeAll(s) == Escape(s[0]) + EscapeAll(s[1..])
  {
    hide Escape;
    var n := |s| - 1;
    if n > 0 {
      EscapeFront(s[..n]);
      assert s[..n][1..] == s[1..][..n-1];
      assert EscapeAll(s[1..]) == EscapeAll(s[1..][..n-1]) + Escape(s[n]);
    } else {
      assert s[..0] == [] && s[1..] == [];
    }
  }

  lemma {:induction false} ReadBody(s: string, r: string)
    ensures ReadChars(EscapeAll(s) + ("\"" + r)) == Some(Read(s, r))
  {
    hide Escape, ReadChar;
    var t := EscapeAll(s) + ("\"" + r);
    if s == [] {
      assert t == "\"" + r && t[1..] == r;
    } else {
      EscapeFront(s);
      var more := EscapeAll(s[1..]) + ("\"" + r);
      assert t == Escape(s[0]) + more;
      ReadEscape(s[0], more);
      ReadBody(s[1..], r);
      assert [s[0]] + s[1..] == s;
    }
  }

  // ----- values -----

  function DigitRun(t: string): (n: nat)
    ensures n <= |t|
  {
    if t == [] || !IsDigit(t[0]) then 0 else 1 + DigitRun(t[1..])
  }

  function ReadValue(t: string): (r: Option<Read<Value>>)
    ensures r.Some? ==> |r.value.rest| < |t|
    decreases |t|, 0
  {
    if t == [] then None
    else if t[0] == '"' then
      match ReadChars(t[1..]) case Some(s) => Some(Read(String(s.value), s.rest)) case None => None
    else if IsDigit(t[0]) then
      var n := DigitRun(t);
      Some(Read(Number(t[..n], true), t[n..]))
    else if t[0] == '[' then
      if |t| > 1 && t[1] == ']' then Some(Read(Array([]), t[2..]))
      else match ReadItems(t[1..]) case Some(items) => Some(Read(Array(items.value), items.rest)) case None => None
    else if t[0] == '{' then
      if |t| > 1 && t[1] == '}' then Some(Read(Object([]), t[2..]))
      else match ReadMembers(t[1..]) case Some(ms) => Some(Read(Object(ms.value), ms.rest)) case None => None
    else None
  }

  /** One or more values, up to the closing bracket. */
  function ReadItems(t: string): (r: Option<Read<seq<Value>>>)
    ensures r.Some? ==> |r.value.rest| < |t|
    decreases |t|, 1
  {
    var v :- ReadValue(t);
    if v.rest == [] then None
    else if v.rest[0] == ']' then Some(Read([v.value], v.rest[1..]))
    else if v.rest[0] == ',' then
      var more :- ReadItems(v.rest[1..]);
      Some(Read([v.value] + more.value, more.rest))
    else None
  }

  function ReadMember(t: string): (r: Option<Read<Field>>)
    ensures r.Some? ==> |r.value.rest| < |t|
    decreases |t|, 1
  {
    if t == [] || t[0] != '"' then None
    else
      var key :- ReadChars(t[1..]);
      if key.rest == [] || key.rest[0] != ':' then None
      else
        var v :- ReadValue(key.rest[1..]);
        Some(Read(Field(key.value, v.value), v.rest))
  }

  /** One or more members, up to the closing brace. */
  function ReadMembers(t: string): (r: Option<Read<seq<Field>>>)
    ensures r.Some? ==> |r.value.rest| < |t|
    decreases |t|, 2
  {
    var m :- ReadMember(t);
    if m.rest == [] then None
    else if m.rest[0] == '}' then Some(Read([m.value], m.rest[1..]))
    else if m.rest[0] == ',' then
      var more :- ReadMembers(m.rest[1..]);
      Some(Read([m.value] + more.value, more.rest))
    else None
  }

  // ----- the reader inverts the emitter -----

  /** Nothing that could extend a number follows. */
  predicate Ends(r: string) {
    r == [] || !IsDigit(r[0])
  }

  lemma {:induction false} DigitRunOf(d: string, r: string)
    requires AllDigits(d) && Ends(r)
    ensures DigitRun(d + r) == |d|
  {
    if d == [] {
      assert d + r == r;
    } else {
      assert (d + r)[1..] == d[1..] + r;
      DigitRunOf(d[1..], r);
    }
  }

  lemma FirstChar(v: Cv)
    ensures Emit(v) != [] && Emit(v)[0] != ']'
  {
    if v.U32? { assert IsDigit(Decimal(v.n)[0]); }
  }

  /** After a non-empty list's first part comes a comma or the closing bracket. */
  function After(parts: seq<string>, close: string): string
    requires parts != []
  {
    if |parts| == 1 then close else "," + (Join(parts[1..]) + close)
  }

  lemma Reassociate(a: string, b: string, c: string, d: string)
    ensures a + b + c + d == a + (b + (c + d))
  {
    ConcatAssociative(a + b, c, d);
    ConcatAssociative(a, b, c + d);
  }

  lemma JoinHead(parts: seq<string>, close: string)
    requires parts != []
    ensures Join(parts) + close == parts[0] + After(parts, close)
  {
    if |parts| > 1 { Reassociate(parts[0], ",", Join(parts[1..]), close); }
  }

  /** Reading what was emitted gives the value it denotes, and stops where it ends. */
  lemma {:induction false} ReadEmit(v: Cv, r: string)
    requires Ends(r)
    ensures ReadValue(Emit(v) + r) == Some(Read(Tree(v), r))
    decreases v, 3
  {
    match v
    case Str(s) => ReadString(s, r);
    case U32(n) => ReadNumber(n, r);
    case Arr(items) => ReadArray(items, r);
    case Obj(ms) => ReadObject(ms, r);
  }

  lemma ReadString(s: string, r: string)
    ensures ReadValue(Quoted(s) + r) == Some(Read(String(s), r))
  {
    hide EscapeAll, ReadChars;
    var t := Quoted(s) + r;
    assert t == "\"" + (EscapeAll(s) + ("\"" + r));
    assert t[1..] == EscapeAll(s) + ("\"" + r);
    ReadBody(s, r);
  }

  lemma ReadNumber(n: nat, r: string)
    requires Ends(r)
    ensures ReadValue(Decimal(n) + r) == Some(Read(Number(Decimal(n), true), r))
  {
    hide Decimal;
    DigitRunOf(Decimal(n), r);
    var t := Decimal(n) + r;
    assert t[..|Decimal(n)|] == Decimal(n) && t[|Decimal(n)|..] == r;
  }

  lemma {:induction false} ReadArray(items: seq<Cv>, r: string)
    ensures ReadValue("[" + Join(ItemTexts(items)) + "]" + r) == Some(Read(Array(Trees(items)), r))
    decreases items, 2
  {
    hide ReadItems, Emit, Tree;
    var body := Join(ItemTexts(items)) + ("]" + r);
    var t := "[" + Join(ItemTexts(items)) + "]" + r;
    assert t == "[" + body && t[1..] == body;
    if items == [] {
      assert body == "]" + r;
    } else {
      JoinHead(ItemTexts(items), "]" + r);
      FirstChar(items[0]);
      hide Join;
      assert body[0] == Emit(items[0])[0];
      ReadList(items, r);
    }
  }

  lemma {:induction false} ReadList(items: seq<Cv>, r: string)
    requires items != []
    ensures ReadItems(Join(ItemTexts(items)) + ("]" + r)) == Some(Read(Trees(items), r))
    decreases items, 1
  {
    hide ReadValue, Emit, Tree, Join;
    var texts := ItemTexts(items);
    var next := After(texts, "]" + r);
    JoinHead(texts, "]" + r);
    ReadEmit(items[0], next);
    if |items| == 1 {
      assert next[1..] == r;
      assert Trees(items) == [Tree(items[0])];
    } else {
      assert texts[1..] == ItemTexts(items[1..]);
      assert next[1..] == Join(ItemTexts(items[1..])) + ("]" + r);
      ReadList(items[1..], r);
      assert [Tree(items[0])] + Trees(items[1..]) == Trees(items);
    }
  }

  lemma ReadOneMember(m: Member, r: string)
    requires Ends(r)
    ensures ReadMember(Quoted(m.key) + ":" + Emit(m.val) + r) == Some(Read(Field(m.key, Tree(m.val)), r))
    decreases m, 0
  {
    hide ReadValue, Emit, Tree, EscapeAll, ReadChars;
    var tail := ":" + (Emit(m.val) + r);
    var t := Quoted(m.key) + ":" + Emit(m.val) + r;
    assert t == "\"" + (EscapeAll(m.key) + ("\"" + tail));
    assert t[1..] == EscapeAll(m.key) + ("\"" + tail);
    ReadBody(m.key, tail);
    assert tail[1..] == Emit(m.val) + r;
    ReadEmit(m.val, r);
  }

  lemma {:induction false} ReadObject(ms: seq<Member>, r: string)
    ensures ReadValue("{" + Join(MemberTexts(ms)) + "}" + r) == Some(Read(Object(Fields(ms)), r))
    decreases ms, 2
  {
    hide ReadMembers, Emit, Tree, EscapeAll;
    var body := Join(MemberTexts(ms)) + ("}" + r);
    var t := "{" + Join(MemberTexts(ms)) + "}" + r;
    assert t == "{" + body && t[1..] == body;
    if ms == [] {
      assert body == "}" + r;
    } else {
      JoinHead(MemberTexts(ms), "}" + r);
      hide Join;
      assert body[0] == MemberTexts(ms)[0][0] == '"';
      ReadMemberList(ms, r);
    }
  }

  lemma {:induction false} ReadMemberList(ms: seq<Member>, r: string)
    requires ms != []
    ensures ReadMembers(Join(MemberTexts(ms)) + ("}" + r)) == Some(Read(Fields(ms), r))
    decreases ms, 1
  {
    hide ReadMember, Emit, Tree, Join, Quoted;
    var texts := MemberTexts(ms);
    var next := After(texts, "}" + r);
    JoinHead(texts, "}" + r);
    ReadOneMember(ms[0], next);
    if |ms| == 1 {
      assert next[1..] == r;
      assert Fields(ms) == [Field(ms[0].key, Tree(ms[0].val))];
    } else {
      assert texts[1..] == MemberTexts(ms[1..]);
      assert next[1..] == Join(MemberTexts(ms[1..])) + ("}" + r);
      ReadMemberList(ms[1..], r);
      assert [Field(ms[0].key, Tree(ms[0].val))] + Fields(ms[1..]) == Fields(ms);
    }
  }
}
