/** The independent bracket scanner (scripts/rule-hash-vectors.py): it cuts the elements
    of a top-level array out of canonical text without parsing them. */
module Scanner {
  import opened Base
  import opened Text
  import opened Canon

  datatype Scan = Scan(depth: int, inStr: bool, esc: bool, elemStart: nat, elements: seq<string>)

  datatype Step = Done(elements: seq<string>) | Go(state: Scan)

  /** What the loop body does with the character at `i`. */
  function Next(text: string, i: nat, st: Scan): Step
    requires i < |text| && st.elemStart <= i + 1
  {
    var c := text[i];
    if st.inStr then
      if st.esc then Go(st.(esc := false))
      else if c == '\\' then Go(st.(esc := true))
      else if c == '"' then Go(st.(inStr := false))
      else Go(st)
    else if c == '"' then Go(st.(inStr := true))
    else if c == '[' || c == '{' then Go(st.(depth := st.depth + 1))
    else if c == ']' || c == '}' then
      if st.depth - 1 == 0 then
        Done(if i > st.elemStart then st.elements + [text[st.elemStart..i]] else st.elements)
      else Go(st.(depth := st.depth - 1))
    else if c == ',' && st.depth == 1 then
      Go(st.(elements := st.elements + [if st.elemStart <= i then text[st.elemStart..i] else ""], elemStart := i + 1))
    else Go(st)
  }

  /** Run the scanner from `i`; `None` if the text ends first. */
  function ScanFrom(text: string, i: nat, st: Scan): Option<(seq<string>, nat)>
    requires st.elemStart <= i + 1
    decreases |text| - i
  {
    if i >= |text| then None
    else
      match Next(text, i, st)
      case Done(elements) => Some((elements, i + 1))
      case Go(st') => ScanFrom(text, i + 1, st')
  }

  function Start(start: nat): Scan {
    Scan(0, false, false, start + 1, [])
  }

  /** The scanning loop, with its six loop variables. */
  method TopLevelElements(text: string, start: nat) returns (r: Option<(seq<string>, nat)>)
    requires start < |text| && text[start] == '['
    ensures r == ScanFrom(text, start, Start(start))
    ensures forall before, items, after ::
              text == before + Emit(Arr(items)) + after && start == |before| ==>
              r == Some((ItemTexts(items), |before + Emit(Arr(items))|))
  {
    forall before, items, after | text == before + Emit(Arr(items)) + after && start == |before|
      ensures ScanFrom(text, start, Start(start)) == Some((ItemTexts(items), |before + Emit(Arr(items))|))
    {
      ScannerInvertsEmitter(before, items, after);
    }
    var elements, depth, inStr, esc, elemStart: nat := [], 0, false, false, start + 1;
    var i := start;
    while i < |text|
      invariant start <= i <= |text| && elemStart <= i + 1
      invariant ScanFrom(text, start, Start(start)) == ScanFrom(text, i, Scan(depth, inStr, esc, elemStart, elements))
    {
      var c := text[i];
      if inStr {
        if esc { esc := false; } else if c == '\\' { esc := true; } else if c == '"' { inStr := false; }
      } else if c == '"' {
        inStr := true;
      } else if c == '[' || c == '{' {
        depth := depth + 1;
      } else if c == ']' || c == '}' {
        depth := depth - 1;
        if depth == 0 {
          if i > elemStart { elements := elements + [text[elemStart..i]]; }
          return Some((elements, i + 1));
        }
      } else if c == ',' && depth == 1 {
        elements := elements + [if elemStart <= i then text[elemStart..i] else ""];
        elemStart := i + 1;
      }
      i := i + 1;
    }
    return None;
  }

  // ----- skipping what the emitter wrote -----

  ghost predicate At(text: string, i: nat, w: string) {
    i + |w| <= |text| && text[i..i+|w|] == w
  }

  lemma AtSplit(text: string, i: nat, a: string, b: string)
    requires At(text, i, a + b)
    ensures At(text, i, a) && At(text, i + |a|, b)
  {
    assert (a + b)[..|a|] == a && (a + b)[|a|..] == b;
    assert text[i..i+|a|] == text[i..i+|a + b|][..|a|];
    assert text[i+|a|..i+|a|+|b|] == text[i..i+|a + b|][|a|..];
  }

  /** From `i`, the scanner reaches `j` in the same state. */
  ghost predicate Skips(text: string, i: nat, j: nat, st: Scan) {
    i <= j && st.elemStart <= i + 1 && ScanFrom(text, i, st) == ScanFrom(text, j, st)
  }

  predicate IsPlain(c: char) {
    c != '"' && c != '[' && c != '{' && c != ']' && c != '}' && c != ','
  }

  /** Outside strings, characters without a meaning change nothing. */
  lemma {:induction false} SkipPlain(text: string, i: nat, w: string, st: Scan)
    requires At(text, i, w) && st.elemStart <= i + 1 && !st.inStr
    requires forall k :: 0 <= k < |w| ==> IsPlain(w[k])
    ensures Skips(text, i, i + |w|, st)
    decreases |w|
  {
    if w != [] {
      assert text[i] == text[i..i+|w|][0] == w[0];
      assert w == [w[0]] + w[1..];
      AtSplit(text, i, [w[0]], w[1..]);
      SkipPlain(text, i + 1, w[1..], st);
    }
  }

  /** Inside a string, an escape sequence leaves the scanner inside it. */
  lemma SkipEscape(text: string, i: nat, c: char, st: Scan)
    requires At(text, i, Escape(c)) && st.elemStart <= i + 1 && st.inStr && !st.esc
    ensures Skips(text, i, i + |Escape(c)|, st)
  {
    var e := Escape(c);
    var w := text[i..i+|e|];
    assert text[i] == w[0];
    if e[0] == '\\' {
      assert text[i+1] == w[1];
      if |e| == 6 {
        assert text[i+2] == w[2] && text[i+3] == w[3] && text[i+4] == w[4] && text[i+5] == w[5];
        assert ScanFrom(text, i + 2, st) == ScanFrom(text, i + 4, st);
        assert ScanFrom(text, i + 4, st) == ScanFrom(text, i + 6, st);
      }
      assert ScanFrom(text, i, st) == ScanFrom(text, i + 1, st.(esc := true)) == ScanFrom(text, i + 2, st);
    }
  }

  lemma {:induction false} SkipBody(text: string, i: nat, s: string, st: Scan)
    requires At(text, i, EscapeAll(s)) && st.elemStart <= i + 1 && st.inStr && !st.esc
    ensures Skips(text, i, i + |EscapeAll(s)|, st)
    decreases |s|
  {
    hide Escape;
    if s != [] {
      var a, b := EscapeAll(s[..|s|-1]), Escape(s[|s|-1]);
      AtSplit(text, i, a, b);
      SkipBody(text, i, s[..|s|-1], st);
      SkipEscape(text, i + |a|, s[|s|-1], st);
    }
  }

  lemma SkipQuoted(text: string, i: nat, s: string, st: Scan)
    requires At(text, i, Quoted(s)) && st.elemStart <= i + 1 && !st.inStr && !st.esc
    ensures Skips(text, i, i + |Quoted(s)|, st)
  {
    hide EscapeAll;
    var body := EscapeAll(s);
    assert Quoted(s) == "\"" + (body + "\"");
    AtSplit(text, i, "\"", body + "\"");
    AtSplit(text, i + 1, body, "\"");
    var inside := st.(inStr := true);
    assert text[i] == text[i..i+1][0];
    assert ScanFrom(text, i, st) == ScanFrom(text, i + 1, inside);
    SkipBody(text, i + 1, s, inside);
    var k := i + 1 + |body|;
    assert text[k] == text[k..k+1][0];
    assert ScanFrom(text, k, inside) == ScanFrom(text, k + 1, st);
  }

  /** A value's text, met outside strings at depth 1 or more, is skipped whole: its
      brackets balance and its commas are never at depth 1. */
  lemma {:induction false} SkipValue(text: string, i: nat, v: Cv, st: Scan)
    requires At(text, i, Emit(v)) && st.elemStart <= i + 1 && !st.inStr && !st.esc && st.depth >= 1
    ensures Skips(text, i, i + |Emit(v)|, st)
    decreases v, 3
  {
    hide Quoted, Join, ScanFrom, At;
    match v
    case Str(s) => SkipQuoted(text, i, s, st);
    case U32(n) =>
      assert forall k :: 0 <= k < |Decimal(n)| ==> IsDigit(Decimal(n)[k]) ==> IsPlain(Decimal(n)[k]);
      SkipPlain(text, i, Decimal(n), st);
    case Arr(items) =>
      var body := Join(ItemTexts(items));
      Opened(text, i, "[", body, "]", st);
      SkipItems(text, i + 1, items, st.(depth := st.depth + 1));
    case Obj(ms) =>
      var body := Join(MemberTexts(ms));
      Opened(text, i, "{", body, "}", st);
      SkipMembers(text, i + 1, ms, st.(depth := st.depth + 1));
  }

  /** A bracketed body is entered one level deeper and left at its closing bracket. */
  lemma Opened(text: string, i: nat, open: string, body: string, close: string, st: Scan)
    requires (open == "[" && close == "]") || (open == "{" && close == "}")
    requires At(text, i, open + body + close) && st.elemStart <= i + 1 && !st.inStr && st.depth >= 1
    ensures var inner := st.(depth := st.depth + 1); var k := i + 1 + |body|;
            && At(text, i + 1, body)
            && ScanFrom(text, i, st) == ScanFrom(text, i + 1, inner)
            && ScanFrom(text, k, inner) == ScanFrom(text, k + 1, st)
  {
    assert open + body + close == open + (body + close);
    AtSplit(text, i, open, body + close);
    AtSplit(text, i + 1, body, close);
    assert text[i] == text[i..i+1][0];
    var k := i + 1 + |body|;
    assert text[k] == text[k..k+1][0];
  }

  lemma {:induction false} SkipItems(text: string, i: nat, items: seq<Cv>, st: Scan)
    requires At(text, i, Join(ItemTexts(items))) && st.elemStart <= i + 1 && !st.inStr && !st.esc && st.depth >= 2
    ensures Skips(text, i, i + |Join(ItemTexts(items))|, st)
    decreases items, 2
  {
    hide Emit, ScanFrom, At;
    if items != [] {
      var head, rest := Emit(items[0]), items[1..];
      assert ItemTexts(items)[1..] == ItemTexts(rest);
      if |items| == 1 {
        SkipValue(text, i, items[0], st);
      } else {
        Separated(text, i, head, Join(ItemTexts(rest)), st);
        SkipValue(text, i, items[0], st);
        SkipItems(text, i + |head| + 1, rest, st);
      }
    }
  }

  /** A comma below the top level is skipped. */
  lemma Separated(text: string, i: nat, head: string, tail: string, st: Scan)
    requires At(text, i, head + "," + tail) && st.elemStart <= i + 1 && !st.inStr && st.depth >= 2
    ensures At(text, i, head) && At(text, i + |head| + 1, tail)
    ensures Skips(text, i + |head|, i + |head| + 1, st)
  {
    assert head + "," + tail == head + ("," + tail);
    AtSplit(text, i, head, "," + tail);
    AtSplit(text, i + |head|, ",", tail);
    var k := i + |head|;
    assert text[k] == text[k..k+1][0];
  }

  lemma SkipMember(text: string, i: nat, m: Member, st: Scan)
    requires At(text, i, Quoted(m.key) + ":" + Emit(m.val)) && st.elemStart <= i + 1 && !st.inStr && !st.esc &&
             st.depth >= 1
    ensures Skips(text, i, i + |Quoted(m.key) + ":" + Emit(m.val)|, st)
    decreases m, 0
  {
    hide Quoted, Emit, ScanFrom, At;
    var key := Quoted(m.key);
    assert key + ":" + Emit(m.val) == key + (":" + Emit(m.val));
    AtSplit(text, i, key, ":" + Emit(m.val));
    AtSplit(text, i + |key|, ":", Emit(m.val));
    SkipQuoted(text, i, m.key, st);
    SkipPlain(text, i + |key|, ":", st);
    SkipValue(text, i + |key| + 1, m.val, st);
  }

  lemma {:induction false} SkipMembers(text: string, i: nat, ms: seq<Member>, st: Scan)
    requires At(text, i, Join(MemberTexts(ms))) && st.elemStart <= i + 1 && !st.inStr && !st.esc && st.depth >= 2
    ensures Skips(text, i, i + |Join(MemberTexts(ms))|, st)
    decreases ms, 2
  {
    hide Quoted, Emit, ScanFrom, At;
    if ms != [] {
      var head, rest := MemberTexts(ms)[0], ms[1..];
      assert MemberTexts(ms)[1..] == MemberTexts(rest);
      if |ms| == 1 {
        SkipMember(text, i, ms[0], st);
      } else {
        Separated(text, i, head, Join(MemberTexts(rest)), st);
        SkipMember(text, i, ms[0], st);
        SkipMembers(text, i + |head| + 1, rest, st);
      }
    }
  }

  // ----- the top level -----

  lemma EmitNonEmpty(v: Cv)
    ensures Emit(v) != []
  {
  }

  /** At depth 1, the scanner collects each remaining element's text and stops just past
      the closing bracket. */
  lemma {:induction false} CollectItems(text: string, i: nat, items: seq<Cv>, done: seq<string>)
    requires items != [] && At(text, i, Join(ItemTexts(items)) + "]")
    ensures ScanFrom(text, i, Scan(1, false, false, i, done)) ==
            Some((done + ItemTexts(items), i + |Join(ItemTexts(items))| + 1))
    decreases |items|
  {
    hide Emit, ScanFrom, At, Skips;
    var st, head, rest := Scan(1, false, false, i, done), Emit(items[0]), items[1..];
    EmitNonEmpty(items[0]);
    assert ItemTexts(items)[1..] == ItemTexts(rest);
    if |items| == 1 {
      AtSplit(text, i, head, "]");
      SkipValue(text, i, items[0], st);
      LastElement(text, i, head, done);
      assert ItemTexts(items) == [head];
    } else {
      var tail := Join(ItemTexts(rest)) + "]";
      assert Join(ItemTexts(items)) + "]" == head + ("," + tail);
      hide Join;
      AtSplit(text, i, head, "," + tail);
      AtSplit(text, i + |head|, ",", tail);
      SkipValue(text, i, items[0], st);
      NextElement(text, i, head, done);
      CollectItems(text, i + |head| + 1, rest, done + [head]);
      assert done + [head] + ItemTexts(rest) == done + ItemTexts(items);
    }
  }

  /** The closing bracket after a skipped element ends the scan with that element. */
  lemma LastElement(text: string, i: nat, head: string, done: seq<string>)
    requires head != [] && At(text, i, head) && At(text, i + |head|, "]")
    requires Skips(text, i, i + |head|, Scan(1, false, false, i, done))
    ensures ScanFrom(text, i, Scan(1, false, false, i, done)) == Some((done + [head], i + |head| + 1))
  {
    var j := i + |head|;
    assert text[j] == text[j..j+1][0];
  }

  /** A top-level comma after a skipped element collects it. */
  lemma NextElement(text: string, i: nat, head: string, done: seq<string>)
    requires At(text, i, head) && At(text, i + |head|, ",")
    requires Skips(text, i, i + |head|, Scan(1, false, false, i, done))
    ensures ScanFrom(text, i, Scan(1, false, false, i, done)) ==
            ScanFrom(text, i + |head| + 1, Scan(1, false, false, i + |head| + 1, done + [head]))
  {
    var j := i + |head|;
    assert text[j] == text[j..j+1][0];
  }

  /** Whatever surrounds it and whatever its strings hold, an emitted array is cut into
      exactly the emitted text of its elements. */
  lemma ScannerInvertsEmitter(before: string, items: seq<Cv>, after: string)
    ensures ScanFrom(before + Emit(Arr(items)) + after, |before|, Start(|before|)) ==
            Some((ItemTexts(items), |before + Emit(Arr(items))|))
  {
    hide ScanFrom, Start;
    var whole, text, i := Emit(Arr(items)), before + Emit(Arr(items)) + after, |before|;
    var body := Join(ItemTexts(items));
    assert At(text, i, whole);
    assert whole == "[" + (body + "]");
    AtSplit(text, i, "[", body + "]");
    Enter(text, i);
    if items == [] {
      LeaveEmpty(text, i + 1);
    } else {
      CollectItems(text, i + 1, items, []);
      assert [] + ItemTexts(items) == ItemTexts(items);
    }
  }

  lemma Enter(text: string, i: nat)
    requires At(text, i, "[")
    ensures Start(i).elemStart <= i + 1 &&
            ScanFrom(text, i, Start(i)) == ScanFrom(text, i + 1, Scan(1, false, false, i + 1, []))
  {
    assert text[i] == text[i..i+1][0];
  }

  lemma LeaveEmpty(text: string, i: nat)
    requires At(text, i, "]")
    ensures ScanFrom(text, i, Scan(1, false, false, i, [])) == Some(([], i + 1))
  {
    assert text[i] == text[i..i+1][0];
  }
}
