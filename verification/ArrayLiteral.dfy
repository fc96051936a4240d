/** Postgres array literals: reading them back gives the list that was printed. */
module ArrayLiteral {
  import opened Prelude
  import opened Values
  import Joining

  /** What the reader carries from one character to the next. */
  datatype State = State(out: seq<Value>, current: string, escaped: bool, insideQuotes: bool, wasQuoted: bool)

  const START := State([], "", false, false, false)

  /** Only an unquoted NULL is the null element. */
  function Element(raw: string, wasQuoted: bool): Value {
    if raw == "NULL" && !wasQuoted then Value.Null else Text(raw)
  }

  function Read(s: State, ch: char): State {
    if s.escaped then s.(current := s.current + [ch], escaped := false)
    else if ch == '\\' then s.(escaped := true)
    else if ch == '"' then s.(insideQuotes := !s.insideQuotes, wasQuoted := true)
    else if ch == ',' && !s.insideQuotes then
      State(s.out + [Element(s.current, s.wasQuoted)], "", false, false, false)
    else s.(current := s.current + [ch])
  }

  function Scan(s: State, text: string): State
    decreases |text|
  {
    if text == [] then s else Scan(Read(s, text[0]), text[1..])
  }

  /** What the reader has in the end, when nothing more comes. */
  function Finished(s: State): seq<Value> {
    s.out + [Element(s.current, s.wasQuoted)]
  }

  /** What is between the braces, or the whole text when it is not in braces. */
  function Inner(text: string): string {
    if |text| >= 2 && text[0] == '{' && text[|text| - 1] == '}' then text[1..|text| - 1] else text
  }

  function Parsed(text: string): seq<Value> {
    if Inner(text) == "" then []
    else
      Finished(Scan(START, Inner(text)))
  }

  lemma {:induction false} ScanAppend(s: State, a: string, b: string)
    ensures Scan(s, a + b) == Scan(Scan(s, a), b)
    decreases |a|
  {
    if a == [] {
      assert a + b == b;
    } else {
      assert (a + b)[1..] == a[1..] + b;
      ScanAppend(Read(s, a[0]), a[1..], b);
    }
  }

  lemma ScanOne(s: State, c: char)
    ensures Scan(s, [c]) == Read(s, c)
  {
    assert Scan(Read(s, c), []) == Read(s, c);
  }

  /** `parse_array`: one pass over the characters. */
  method ParseArray(text: string) returns (out: seq<Value>)
    ensures out == Parsed(text)
  {
    var inner := Inner(text);
    if inner == "" {
      return [];
    }
    out := [];
    var current: string, escaped, insideQuotes, wasQuoted := "", false, false, false;
    for i := 0 to |inner|
      invariant Scan(START, inner[..i]) == State(out, current, escaped, insideQuotes, wasQuoted)
    {
      var ch := inner[i];
      assert inner[..i + 1] == inner[..i] + [ch];
      ScanAppend(START, inner[..i], [ch]);
      ScanOne(Scan(START, inner[..i]), ch);
      if escaped {
        current, escaped := current + [ch], false;
      } else if ch == '\\' {
        escaped := true;
      } else if ch == '"' {
        insideQuotes, wasQuoted := !insideQuotes, true;
      } else if ch == ',' && !insideQuotes {
        out := out + [Element(current, wasQuoted)];
        current, wasQuoted := "", false;
      } else {
        current := current + [ch];
      }
    }
    assert inner[..|inner|] == inner;
    out := out + [Element(current, wasQuoted)];
  }

  // ----- printing -----

  /** An element as printed: NULL, a string in quotes, or a string without them. */
  datatype Printed = NullWord | Quoted(text: string) | Bare(text: string)

  /** Bare spelling is for strings that are not empty and not the null word. */
  predicate Printable(p: Printed) {
    p.Bare? ==> p.text != "" && p.text != "NULL"
  }

  function Meaning(p: Printed): Value {
    if p.NullWord? then Value.Null else Text(p.text)
  }

  /** Quotes and backslashes take a backslash; outside quotes commas do too. */
  function Escape(s: string, quoted: bool): string {
    if s == "" then ""
    else EscapeOne(s[0], quoted) + Escape(s[1..], quoted)
  }

  function Spell(p: Printed): string {
    match p
    case NullWord => "NULL"
    case Quoted(text) => ['"'] + Escape(text, true) + ['"']
    case Bare(text) => Escape(text, false)
  }

  function Spellings(items: seq<Printed>): (texts: seq<string>)
    ensures |texts| == |items|
  {
    if items == [] then [] else [Spell(items[0])] + Spellings(items[1..])
  }

  function Meanings(items: seq<Printed>): (values: seq<Value>)
    ensures |values| == |items| && forall i :: 0 <= i < |items| ==> values[i] == Meaning(items[i])
  {
    if items == [] then [] else [Meaning(items[0])] + Meanings(items[1..])
  }

  function Print(items: seq<Printed>): string {
    ['{'] + Joining.JoinText(Spellings(items), ',') + ['}']
  }

  /** A character as it is escaped. */
  function EscapeOne(c: char, quoted: bool): string {
    if c == '\\' || c == '"' || (!quoted && c == ',') then ['\\', c] else [c]
  }

  lemma ScanEscapedOne(s: State, c: char)
    requires !s.escaped
    ensures Scan(s, EscapeOne(c, s.insideQuotes)) == s.(current := s.current + [c])
  {
    if |EscapeOne(c, s.insideQuotes)| == 2 {
      assert ['\\', c] == ['\\'] + [c];
      ScanAppend(s, ['\\'], [c]);
      ScanOne(s, '\\');
      ScanOne(s.(escaped := true), c);
    } else {
      ScanOne(s, c);
    }
  }

  lemma {:induction false} ScanEscape(s: State, text: string)
    requires !s.escaped
    ensures Scan(s, Escape(text, s.insideQuotes)) == s.(current := s.current + text)
    decreases |text|
  {
    if text == "" {
      assert s.current + text == s.current;
    } else {
      var next := s.(current := s.current + [text[0]]);
      ScanEscapedOne(s, text[0]);
      ScanAppend(s, EscapeOne(text[0], s.insideQuotes), Escape(text[1..], s.insideQuotes));
      ScanEscape(next, text[1..]);
      assert (s.current + [text[0]]) + text[1..] == s.current + text;
    }
  }

  /** An element's spelling leaves the reader holding its text, and knowing whether it was quoted. */
  lemma ScanSpell(s: State, p: Printed)
    requires Printable(p) && s == State(s.out, "", false, false, false)
    ensures var after := Scan(s, Spell(p));
            && after == State(s.out, after.current, false, false, p.Quoted?)
            && Element(after.current, after.wasQuoted) == Meaning(p)
  {
    match p
    case NullWord =>
      assert Escape("NULL", false) == "NULL" by {
        assert "NULL"[1..] == "ULL" && "ULL"[1..] == "LL" && "LL"[1..] == "L" && "L"[1..] == "";
      }
      ScanEscape(s, "NULL");
    case Quoted(text) =>
      var open := s.(insideQuotes := true, wasQuoted := true);
      ScanAppend(s, ['"'] + Escape(text, true), ['"']);
      ScanAppend(s, ['"'], Escape(text, true));
      ScanOne(s, '"');
      ScanEscape(open, text);
      assert open.current + text == text;
      ScanOne(open.(current := text), '"');
    case Bare(text) =>
      ScanEscape(s, text);
      assert s.current + text == text;
  }

  lemma ScanThroughComma(s: State, p: Printed)
    requires Printable(p) && s == State(s.out, "", false, false, false)
    ensures Scan(s, Spell(p) + [',']) == State(s.out + [Meaning(p)], "", false, false, false)
  {
    ScanSpell(s, p);
    ScanAppend(s, Spell(p), [',']);
    ScanOne(Scan(s, Spell(p)), ',');
  }

  lemma FirstOfSeveral(items: seq<Printed>)
    requires |items| > 1
    ensures Joining.JoinText(Spellings(items), ',')
            == (Spell(items[0]) + [',']) + Joining.JoinText(Spellings(items[1..]), ',')
  {
    assert Spellings(items)[1..] == Spellings(items[1..]);
  }

  lemma ScanThroughOne(out: seq<Value>, p: Printed, rest: string)
    requires Printable(p)
    ensures Scan(State(out, "", false, false, false), (Spell(p) + [',']) + rest)
            == Scan(State(out + [Meaning(p)], "", false, false, false), rest)
  {
    var s := State(out, "", false, false, false);
    ScanThroughComma(s, p);
    ScanAppend(s, Spell(p) + [','], rest);
  }

  lemma OneMore(out: seq<Value>, p: Printed, rest: string, values: seq<Value>)
    requires Printable(p)
    requires Finished(Scan(State(out + [Meaning(p)], "", false, false, false), rest)) == (out + [Meaning(p)]) + values
    ensures Finished(Scan(State(out, "", false, false, false), (Spell(p) + [',']) + rest))
            == out + ([Meaning(p)] + values)
  {
    ScanThroughOne(out, p, rest);
    assert (out + [Meaning(p)]) + values == out + ([Meaning(p)] + values);
  }

  lemma {:induction false} ScanItems(out: seq<Value>, items: seq<Printed>)
    requires items != [] && forall i :: 0 <= i < |items| ==> Printable(items[i])
    ensures Finished(Scan(State(out, "", false, false, false), Joining.JoinText(Spellings(items), ',')))
            == out + Meanings(items)
    decreases |items|
  {
    if |items| == 1 {
      ScanSpell(State(out, "", false, false, false), items[0]);
      assert Spellings(items) == [Spell(items[0])] && Meanings(items) == [Meaning(items[0])];
    } else {
      FirstOfSeveral(items);
      ScanItems(out + [Meaning(items[0])], items[1..]);
      OneMore(out, items[0], Joining.JoinText(Spellings(items[1..]), ','), Meanings(items[1..]));
    }
  }

  lemma SpellingNotEmpty(items: seq<Printed>)
    requires items != [] && Printable(items[0])
    ensures Joining.JoinText(Spellings(items), ',') != ""
  {
    var first := Spell(items[0]);
    assert first != "";
    assert Spellings(items)[0] == first;
    var joined := Joining.JoinText(Spellings(items), ',');
    assert |joined| >= |first|;
  }

  /** Every list of nulls and strings, however each string is spelled, is read back as it was:
      NULL apart from "NULL", and no elements apart from one empty string. */
  lemma ArrayRoundTrip(items: seq<Printed>)
    requires forall i :: 0 <= i < |items| ==> Printable(items[i])
    ensures Parsed(Print(items)) == Meanings(items)
  {
    var joined, text := Joining.JoinText(Spellings(items), ','), Print(items);
    assert text[0] == '{' && text[|text| - 1] == '}' && text[1..|text| - 1] == joined;
    assert Inner(text) == joined;
    if items != [] {
      SpellingNotEmpty(items);
      ScanItems([], items);
      assert [] + Meanings(items) == Meanings(items);
    }
  }

  // ----- when quotes can be left out -----

  predicate Plain(s: string) {
    forall i :: 0 <= i < |s| ==> s[i] != '\\' && s[i] != '"' && s[i] != ','
  }

  function Weight(values: seq<Value>): nat {
    if values == [] then 0
    else
      var last := values[|values| - 1];
      Weight(values[..|values| - 1]) + if last.Text? then |last.s| else 4
  }

  function Held(s: State): nat {
    Weight(s.out) + |s.current|
  }

  lemma ReadHolds(s: State, ch: char)
    ensures Held(Read(s, ch)) <= Held(s) + 1
    ensures !s.escaped && (ch == '\\' || ch == '"' || (ch == ',' && !s.insideQuotes)) ==> Held(Read(s, ch)) <= Held(s)
  {
    var element := Element(s.current, s.wasQuoted);
    assert (s.out + [element])[..|s.out|] == s.out;
  }

  lemma {:induction false} ScanHolds(s: State, text: string)
    ensures Held(Scan(s, text)) <= Held(s) + |text|
    decreases |text|
  {
    if text != [] {
      ReadHolds(s, text[0]);
      ScanHolds(Read(s, text[0]), text[1..]);
    }
  }

  lemma {:induction false} PlainIsItsEscape(s: string)
    requires Plain(s)
    ensures Escape(s, false) == s
  {
    if s != "" {
      assert Plain(s[1..]) by {
        forall i | 0 <= i < |s[1..]| ensures s[1..][i] != '\\' && s[1..][i] != '"' && s[1..][i] != ',' {
          assert s[1..][i] == s[i + 1];
        }
      }
      PlainIsItsEscape(s[1..]);
    }
  }

  predicate Special(c: char) {
    c == '\\' || c == '"' || c == ','
  }

  /** Reading a special character outside quotes leaves less behind than was read. */
  lemma SpecialIsLost(p: string, c: char, rest: string)
    requires Plain(p) && Special(c)
    ensures var last := Scan(START, p + [c] + rest); Held(last) < |p + [c] + rest|
  {
    PlainIsItsEscape(p);
    ScanEscape(START, p);
    assert START.current + p == p;
    var before := START.(current := p);
    ScanAppend(START, p + [c], rest);
    ScanAppend(START, p, [c]);
    ScanOne(before, c);
    ReadHolds(before, c);
    ScanHolds(Read(before, c), rest);
  }

  lemma ResultWeight(s: State)
    ensures Weight(Finished(s)) == Held(s)
  {
    assert Finished(s)[..|s.out|] == s.out;
  }

  lemma {:induction false} FirstSpecial(s: string) returns (p: string, c: char, rest: string)
    requires !Plain(s)
    ensures s == p + [c] + rest && Plain(p) && Special(c)
  {
    if Special(s[0]) {
      p, c, rest := "", s[0], s[1..];
    } else {
      p, c, rest := FirstSpecial(s[1..]);
      p := [s[0]] + p;
      assert s == [s[0]] + s[1..];
    }
  }

  lemma InnerOfBraces(s: string)
    ensures Inner(['{'] + s + ['}']) == s
  {
    var text := ['{'] + s + ['}'];
    assert text[0] == '{' && text[|text| - 1] == '}' && text[1..|text| - 1] == s;
  }

  lemma PlainReads(s: string)
    requires Plain(s)
    ensures Finished(Scan(START, s)) == [Element(s, false)]
  {
    PlainIsItsEscape(s);
    ScanEscape(START, s);
    assert START.current + s == s;
  }

  lemma SpecialReads(s: string)
    requires !Plain(s)
    ensures Finished(Scan(START, s)) != [Text(s)]
  {
    var p, c, rest := FirstSpecial(s);
    SpecialIsLost(p, c, rest);
    ResultWeight(Scan(START, s));
    assert [Text(s)][..0] == [] && Weight([Text(s)]) == |s|;
  }

  /** Written as it is, a string is read back exactly when it is not empty, not the null word,
      and free of commas, quotes and backslashes. */
  lemma UnquotedExactly(s: string)
    ensures Parsed(['{'] + s + ['}']) == [Text(s)] <==> s != "" && s != "NULL" && Plain(s)
  {
    InnerOfBraces(s);
    if Plain(s) {
      PlainReads(s);
      assert [Element(s, false)][0] == Element(s, false) && [Text(s)][0] == Text(s);
    } else {
      SpecialReads(s);
    }
  }
}
