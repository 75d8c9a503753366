/** Reading back what was printed, in any spacing. */
module JsonRoundTrip {
  import opened Wrappers
  import opened Decimal
  import opened JsonNumber
  import opened Json

  // ----------------------------------------------------------------------------- strings

  /** What the escape of a character is read as. */
  function UnitOf(c: char): Unit {
    if |EscapeChar(c)| == 6 then Coded(c as int) else Raw(c)
  }

  function UnitsOf(s: string): seq<Unit> {
    if s == "" then [] else [UnitOf(s[0])] + UnitsOf(s[1..])
  }

  /** Every character is read back from its escape. */
  lemma ReadEscapedChar(c: char, rest: string)
    ensures EscapeChar(c) != "" && EscapeChar(c)[0] != '"'
    ensures ReadUnit(EscapeChar(c) + rest) == Some((UnitOf(c), rest))
  {
    var e := EscapeChar(c);
    var s := e + rest;
    assert s[0] == e[0] && s[|e|..] == rest;
    if |e| == 2 {
      assert s[1] == e[1];
    } else if |e| == 6 {
      assert s[1] == e[1] && s[2..6] == e[2..6];
      ReadHex(c as int / 16, c as int % 16);
      assert e[2..6] == ['0', '0', HEX[c as int / 16], HEX[c as int % 16]];
    }
  }

  lemma ReadHex(a: nat, b: nat)
    requires a < 2 && b < 16
    ensures HexCode(['0', '0', HEX[a], HEX[b]]) == Some(16 * a + b)
  {
    var h := "0123456789abcdef";
    assert HEX[a] == h[a] && HEX[b] == h[b];
    assert HexValue(h[b]) == Some(b);
  }

  lemma {:induction false} ReadEscapedUnits(s: string, rest: string)
    ensures ReadUnits(Escape(s) + "\"" + rest) == Some((UnitsOf(s), rest))
  {
    if s == "" {
      assert Escape(s) + "\"" + rest == "\"" + rest && ("\"" + rest)[1..] == rest;
    } else {
      var tail := Escape(s[1..]) + "\"" + rest;
      assert Escape(s) + "\"" + rest == EscapeChar(s[0]) + tail;
      ReadEscapedChar(s[0], tail);
      ReadEscapedUnits(s[1..], rest);
      hide ReadUnit, EscapeChar, Escape;
    }
  }

  /** Escapes of single characters stand for themselves. */
  lemma {:induction false} BytesOfUnits(s: string)
    ensures StringBytes(UnitsOf(s)) == s
  {
    if s != "" {
      var us := UnitsOf(s);
      assert us[0] == UnitOf(s[0]) && us[1..] == UnitsOf(s[1..]);
      BytesOfUnits(s[1..]);
      assert us[0].Coded? ==> us[0].code < 0x20;
      assert s == [s[0]] + s[1..];
    }
  }

  /** Unescaping undoes escaping, whatever the string. */
  lemma ReadEscaped(s: string, rest: string)
    ensures ReadString(Escape(s) + "\"" + rest) == Some((s, rest))
  {
    ReadEscapedUnits(s, rest);
    BytesOfUnits(s);
    hide ReadUnits, StringBytes, Escape;
  }

  // ----------------------------------------------------------------------------- numbers

  /** A numeral is read to its end. */
  lemma ReadNumeral(w: string, rest: string)
    requires NumberEnd(w) == Some("") && Stops(rest)
    ensures ReadNumber(w + rest) == Some((NumberValue(w), rest))
  {
    var w' := NumberAhead(w, rest);
    assert w' + "" == w' && (w + rest)[..|w|] == w;
    hide NumberEnd, NumberValue;
  }

  lemma ReadPrintedNumber(n: int, rest: string)
    requires Stops(rest)
    ensures ReadNumber(Numeral(n) + rest) == Some((Number(n), rest))
  {
    NumeralEnds(n);
    hide NumberEnd, ReadNumber, IntegerValue, HasPoint;
    ReadNumeral(Numeral(n), rest);
  }

  // -------------------------------------------------------------------------- white space

  predicate Blank(w: string) {
    forall i :: 0 <= i < |w| ==> IsBlank(w[i])
  }

  lemma {:induction false} SkipOver(w: string, s: string)
    requires Blank(w)
    ensures Skip(w + s) == Skip(s)
  {
    if w == "" {
      assert w + s == s;
    } else {
      assert (w + s)[0] == w[0] && (w + s)[1..] == w[1..] + s;
      SkipOver(w[1..], s);
    }
  }

  /** A token stands behind white space. */
  lemma SkipTo(w: string, s: string)
    requires Blank(w) && s != "" && !IsBlank(s[0])
    ensures Skip(w + s) == s
  {
    SkipOver(w, s);
  }

  lemma LineBreakBlank(sp: Spacing)
    ensures Blank(LineBreak(sp)) && Blank(Gap(sp))
  {
  }

  lemma ValueBehind(w: string, s: string)
    requires Blank(w)
    ensures ReadValue(w + s) == ReadValue(s)
  {
    SkipOver(w, s);
    hide Skip, Leads, ReadString, ReadNumber, ReadMembers, ReadElements;
  }

  lemma ElementsBehind(w: string, s: string)
    requires Blank(w)
    ensures ReadElements(w + s) == ReadElements(s)
  {
    ValueBehind(w, s);
    hide Skip, ReadValue;
  }

  lemma MembersBehind(w: string, s: string)
    requires Blank(w)
    ensures ReadMembers(w + s) == ReadMembers(s)
  {
    SkipOver(w, s);
    hide Skip, ReadValue, ReadString;
  }

  // ------------------------------------------------------------------------ reading values

  /** Printed values begin with a character that is neither blank nor a closing bracket. */
  lemma PrintedHead(v: Value, sp: Spacing)
    ensures var p := Print(v, sp); p != "" && !IsBlank(p[0]) && p[0] != ']' && p[0] != '}'
  {
    match v
    case Number(n) => NumeralEnds(n);
    case Fraction(w) => NumberHead(w);
    case _ =>
  }

  /** Numbers begin with a digit or a minus. */
  lemma NumberHead(s: string)
    requires NumberEnd(s).Some?
    ensures s != "" && (s[0] == '-' || IsDigit(s[0]))
  {
  }

  lemma ReadStringValue(s: string, rest: string)
    ensures ReadValue(Quoted(s) + rest) == Some((String(s), rest))
  {
    var q := Quoted(s) + rest;
    QuotedText(q, s, rest);
    ReadEscaped(s, rest);
    hide *;
    ValueOfString(q);
  }

  lemma ValueOfString(s: string)
    requires s != "" && s[0] == '"'
    ensures ReadValue(s) == match ReadString(s[1..]) case None => None case Some(r) => Some((String(r.0), r.1))
  {
    assert Skip(s) == s;
    hide ReadScalar, ReadMembers, ReadElements, ReadString, Skip;
  }

  lemma ReadNumberValue(w: string, v: Value, rest: string)
    requires w != "" && (w[0] == '-' || IsDigit(w[0])) && ReadNumber(w + rest) == Some((v, rest))
    ensures ReadValue(w + rest) == Some((v, rest))
  {
    var s := w + rest;
    assert s[0] == w[0];
    hide ReadNumber, ReadValue;
    ValueOfNumber(s);
  }

  lemma LeadsNot(s: string, word: string)
    requires s != "" && word != "" && s[0] != word[0]
    ensures !Leads(s, word)
  {
    assert |word| <= |s| ==> s[..|word|][0] == s[0];
  }

  lemma ValueOfScalar(s: string)
    requires s != "" && !IsBlank(s[0]) && s[0] != '{' && s[0] != '[' && s[0] != '"'
    ensures ReadValue(s) == ReadScalar(s)
  {
    assert Skip(s) == s;
    hide ReadScalar, ReadMembers, ReadElements, ReadString, Skip;
  }

  lemma ValueOfNumber(s: string)
    requires s != "" && (s[0] == '-' || IsDigit(s[0]))
    ensures ReadValue(s) == ReadNumber(s)
  {
    ValueOfScalar(s);
    NotAWord(s);
    hide ReadNumber, ReadValue, Leads;
  }

  lemma NotAWord(s: string)
    requires s != "" && (s[0] == '-' || IsDigit(s[0]))
    ensures !Leads(s, "true") && !Leads(s, "false") && !Leads(s, "null")
  {
    hide Leads;
    LeadsNot(s, "true");
    LeadsNot(s, "false");
    LeadsNot(s, "null");
  }

  lemma ReadPrintedFraction(w: Fractional, rest: string)
    requires Stops(rest)
    ensures ReadValue(w + rest) == Some((Fraction(w), rest))
  {
    NumberHead(w);
    ReadNumeral(w, rest);
    hide ReadNumber, ReadValue, NumberEnd, HasPoint;
    ReadNumberValue(w, Fraction(w), rest);
  }

  lemma ReadWord(v: Value, sp: Spacing, rest: string)
    requires v.Null? || v.Bool?
    ensures ReadValue(Print(v, sp) + rest) == Some((v, rest))
  {
    var w := Print(v, sp);
    var s := w + rest;
    assert s[0] == w[0] && s[..|w|] == w && s[|w|..] == rest;
    ValueOfScalar(s);
    hide ReadNumber, ReadValue;
    if v.Null? {
      LeadsNot(s, "true");
      LeadsNot(s, "false");
    } else if !v.b {
      LeadsNot(s, "true");
    }
  }

  lemma ReadEmpty(w: string, rest: string)
    requires Blank(w)
    ensures ReadValue("[" + w + "]" + rest) == Some((Array([]), rest))
    ensures ReadValue("{" + w + "}" + rest) == Some((Object([]), rest))
  {
    ReadEmptyBracket('[', w, ']', rest);
    ReadEmptyBracket('{', w, '}', rest);
    hide *;
    assert ['['] + w + [']'] + rest == "[" + w + "]" + rest;
    assert ['{'] + w + ['}'] + rest == "{" + w + "}" + rest;
  }

  lemma ReadEmptyBracket(open: char, w: string, close: char, rest: string)
    requires (open == '[' && close == ']') || (open == '{' && close == '}')
    requires Blank(w)
    ensures ReadValue([open] + w + [close] + rest) == Some((if open == '[' then Array([]) else Object([]), rest))
  {
    var s, t := [open] + w + [close] + rest, [close] + rest;
    assert s == [open] + w + t && t[0] == close && t[1..] == rest;
    Bracketed(s, open, w, t);
    SkipTo(w, t);
    hide ReadNumber, ReadMembers, ReadElements, ReadString, Skip, Blank;
    ValueOfBracket(s);
  }

  lemma ReadArray(w: string, body: string, vs: seq<Value>, rest: string)
    requires Blank(w) && body != "" && !IsBlank(body[0]) && body[0] != ']'
    requires ReadElements(body) == Some((vs, rest))
    ensures ReadValue("[" + w + body) == Some((Array(vs), rest))
  {
    var s := "[" + w + body;
    Bracketed(s, '[', w, body);
    ElementsBehind(w, body);
    SkipTo(w, body);
    ValueOfBracket(s);
    hide *;
  }

  lemma Bracketed(s: string, open: char, w: string, body: string)
    requires s == [open] + w + body
    ensures s != "" && s[0] == open && s[1..] == w + body
  {
  }

  /** What stands behind an opening bracket decides. */
  lemma ValueOfBracket(s: string)
    requires s != "" && (s[0] == '[' || s[0] == '{')
    ensures s[0] == '[' && (Skip(s[1..]) == "" || Skip(s[1..])[0] != ']') ==>
              ReadValue(s) == match ReadElements(s[1..]) case None => None case Some(r) => Some((Array(r.0), r.1))
    ensures s[0] == '{' && (Skip(s[1..]) == "" || Skip(s[1..])[0] != '}') ==>
              ReadValue(s) == match ReadMembers(s[1..]) case None => None case Some(r) => Some((Object(r.0), r.1))
    ensures s[0] == '[' && Skip(s[1..]) != "" && Skip(s[1..])[0] == ']' ==>
              ReadValue(s) == Some((Array([]), Skip(s[1..])[1..]))
    ensures s[0] == '{' && Skip(s[1..]) != "" && Skip(s[1..])[0] == '}' ==>
              ReadValue(s) == Some((Object([]), Skip(s[1..])[1..]))
  {
    assert Skip(s) == s;
    hide ReadScalar, ReadMembers, ReadElements, ReadString, Skip;
  }

  lemma ReadObject(w: string, body: string, ms: seq<Member>, rest: string)
    requires Blank(w) && body != "" && !IsBlank(body[0]) && body[0] != '}'
    requires ReadMembers(body) == Some((ms, rest))
    ensures ReadValue("{" + w + body) == Some((Object(ms), rest))
  {
    var s := "{" + w + body;
    Bracketed(s, '{', w, body);
    MembersBehind(w, body);
    SkipTo(w, body);
    ValueOfBracket(s);
    hide *;
  }

  /** One element read, by what follows it. */
  lemma ReadElement(p: string, v: Value, w: string, rest: string)
    requires Blank(w) && Stops(w + rest) && rest != "" && !IsBlank(rest[0])
    requires ReadValue(p + (w + rest)) == Some((v, w + rest))
    ensures rest[0] == ']' ==> ReadElements(p + (w + rest)) == Some(([v], rest[1..]))
    ensures rest[0] == ',' ==>
              ReadElements(p + (w + rest)) ==
              match ReadElements(rest[1..]) case None => None case Some(r) => Some(([v] + r.0, r.1))
  {
    SkipTo(w, rest);
    hide ReadValue;
  }

  lemma ReadMemberStep(s: string, key: string, afterKey: string, v: Value, after: string, rest: string)
    requires Skip(s) == s && s != "" && s[0] == '"' && ReadString(s[1..]) == Some((key, afterKey))
    requires Skip(afterKey) == afterKey && afterKey != "" && afterKey[0] == ':'
    requires ReadValue(afterKey[1..]) == Some((v, after)) && Skip(after) == rest && rest != ""
    ensures rest[0] == '}' ==> ReadMembers(s) == Some(([Member(key, v)], rest[1..]))
    ensures rest[0] == ',' ==>
              ReadMembers(s) ==
              match ReadMembers(rest[1..]) case None => None case Some(r) => Some(([Member(key, v)] + r.0, r.1))
  {
    hide ReadValue, ReadString, Skip;
  }

  lemma QuotedText(s: string, cs: string, behind: string)
    requires s == Quoted(cs) + behind
    ensures s != "" && s[0] == '"' && s[1..] == Escape(cs) + "\"" + behind
  {
  }

  lemma ColonText(behind: string)
    ensures (":" + behind)[0] == ':' && (":" + behind)[1..] == behind
  {
  }

  /** One member read, by what follows it. */
  lemma ReadMember(s: string, key: string, gap: string, body: string, v: Value, w: string, rest: string)
    requires s == Quoted(key) + (":" + (gap + body))
    requires Blank(gap) && Blank(w) && rest != "" && !IsBlank(rest[0])
    requires ReadValue(body) == Some((v, w + rest))
    ensures rest[0] == '}' ==> ReadMembers(s) == Some(([Member(key, v)], rest[1..]))
    ensures rest[0] == ',' ==>
              ReadMembers(s) ==
              match ReadMembers(rest[1..]) case None => None case Some(r) => Some(([Member(key, v)] + r.0, r.1))
  {
    var afterKey := ":" + (gap + body);
    QuotedText(s, key, afterKey);
    ReadEscaped(key, afterKey);
    assert Skip(s) == s && Skip(afterKey) == afterKey;
    ColonText(gap + body);
    ValueBehind(gap, body);
    SkipTo(w, rest);
    hide *;
    ReadMemberStep(s, key, afterKey, v, w + rest, rest);
  }

  // ------------------------------------------------------------------------- the round trip

  /** A printed value is read back, in any spacing and before anything that does not go on
      with a number. */
  lemma {:induction false} ReadPrinted(v: Value, sp: Spacing, rest: string)
    requires Stops(rest)
    ensures ReadValue(Print(v, sp) + rest) == Some((v, rest))
    decreases v
  {
    hide ReadValue, ReadElements, ReadMembers, Skip, Stops;
    match v
    case Null => ReadWord(v, sp, rest);
    case Bool(_) => ReadWord(v, sp, rest);
    case Number(n) =>
      NumeralEnds(n);
      ReadPrintedNumber(n, rest);
      ReadNumberValue(Numeral(n), v, rest);
    case Fraction(w) => ReadPrintedFraction(w, rest);
    case String(s) => ReadStringValue(s, rest);
    case Array(vs) => ReadPrintedArray(vs, sp, rest);
    case Object(ms) =>
      LineBreakBlank(sp);
      LineBreakBlank(Inner(sp));
      ReadPrintedObject(ms, LineBreak(Inner(sp)), LineBreak(Inner(sp)), Gap(sp), Inner(sp), LineBreak(sp), rest);
  }

  lemma {:induction false} ReadPrintedArray(vs: seq<Value>, sp: Spacing, rest: string)
    ensures ReadValue(Print(Array(vs), sp) + rest) == Some((Array(vs), rest))
    decreases vs, 1
  {
    var w, w' := LineBreak(Inner(sp)), LineBreak(sp);
    LineBreakBlank(sp);
    LineBreakBlank(Inner(sp));
    var text := PrintElements(vs, sp);
    BracketsRegroup(w, text, w', rest);
    if vs == [] {
      ReadEmpty(w + w', rest);
    } else {
      var body := text + (w' + ("]" + rest));
      ReadPrintedElements(vs, sp, w', rest);
      PrintedHead(vs[0], Inner(sp));
      assert body[0] == Print(vs[0], Inner(sp))[0];
      hide ReadElements, ReadValue, Print, PrintElements, Stops;
      ReadArray(w, body, vs, rest);
    }
  }

  lemma {:induction false} ReadPrintedElements(vs: seq<Value>, sp: Spacing, w: string, rest: string)
    requires vs != [] && Blank(w)
    ensures ReadElements(PrintElements(vs, sp) + (w + ("]" + rest))) == Some((vs, rest))
    decreases vs, 0
  {
    var p, end := Print(vs[0], Inner(sp)), w + ("]" + rest);
    ElementsText(vs, sp);
    if |vs| == 1 {
      EndStops(w, rest);
      ReadPrinted(vs[0], Inner(sp), end);
      hide *;
      ReadElement(p, vs[0], w, "]" + rest);
      assert vs == [vs[0]];
    } else {
      var lead, more := LineBreak(Inner(sp)), PrintElements(vs[1..], sp);
      LineBreakBlank(Inner(sp));
      ReadPrinted(vs[0], Inner(sp), "," + (lead + (more + end)));
      ReadPrintedElements(vs[1..], sp, w, rest);
      hide *;
      CommaRegroup(p, lead, more, end);
      ElementsBehind(lead, more + end);
      ReadFirst(p, vs[0], lead + (more + end));
      assert vs == [vs[0]] + vs[1..];
    }
  }

  lemma ElementsText(vs: seq<Value>, sp: Spacing)
    requires vs != []
    ensures var p := Print(vs[0], Inner(sp));
            PrintElements(vs, sp) == if |vs| == 1 then p else p + "," + LineBreak(Inner(sp)) + PrintElements(vs[1..], sp)
  {
  }

  lemma EndStops(w: string, rest: string)
    requires Blank(w)
    ensures Stops(w + ("]" + rest)) && ("]" + rest)[1..] == rest && ("]" + rest)[0] == ']' && !IsBlank(("]" + rest)[0])
  {
    assert w != "" ==> IsBlank(w[0]) && (w + ("]" + rest))[0] == w[0];
    assert w == "" ==> w + ("]" + rest) == "]" + rest;
  }

  /** An element is read, and those behind its comma. */
  lemma ReadFirst(p: string, v: Value, more: string)
    requires ReadValue(p + ("," + more)) == Some((v, "," + more))
    ensures ReadElements(p + ("," + more)) ==
            match ReadElements(more) case None => None case Some(r) => Some(([v] + r.0, r.1))
  {
    var c, tail := ',', "," + more;
    assert !IsBlank(c);
    hide ReadValue, ReadElements, IsBlank;
    assert "" + tail == tail && tail[1..] == more && tail[0] == c;
    ReadElement(p, v, "", tail);
  }

  lemma CommaRegroup(p: string, lead: string, more: string, end: string)
    ensures p + "," + lead + more + end == p + ("," + (lead + (more + end)))
  {
  }

  lemma BracketsRegroup(first: string, body: string, w: string, rest: string)
    ensures "[" + first + body + w + "]" + rest == "[" + first + (body + (w + ("]" + rest)))
    ensures body == "" ==> "[" + first + body + w + "]" + rest == "[" + (first + w) + "]" + rest
  {
  }

  lemma BracesRegroup(first: string, body: string, w: string, rest: string)
    ensures "{" + first + body + w + "}" + rest == "{" + first + (body + (w + ("}" + rest)))
    ensures "{" + first + "" + w + "}" + rest == "{" + (first + w) + "}" + rest
  {
  }

  lemma {:induction false} ReadPrintedObject(ms: seq<Member>, first: string, separator: string, gap: string,
                                             inner: Spacing, w: string, rest: string)
    requires Blank(first) && Blank(separator) && Blank(gap) && Blank(w)
    ensures ReadValue("{" + first + PrintMembers(ms, separator, gap, inner) + w + "}" + rest) == Some((Object(ms), rest))
    decreases ms, 1
  {
    if ms == [] {
      BracesRegroup(first, "", w, rest);
      ReadEmpty(first + w, rest);
    } else {
      var body := PrintMembers(ms, separator, gap, inner) + (w + ("}" + rest));
      BracesRegroup(first, PrintMembers(ms, separator, gap, inner), w, rest);
      hide Print, ReadMembers, ReadValue;
      ReadPrintedMembers(ms, separator, gap, inner, w, rest);
      assert body[0] == Quoted(ms[0].key)[0];
      hide PrintMembers;
      ReadObject(first, body, ms, rest);
    }
  }

  lemma {:induction false} ReadPrintedMembers(ms: seq<Member>, separator: string, gap: string, inner: Spacing,
                                              w: string, rest: string)
    requires ms != [] && Blank(separator) && Blank(gap) && Blank(w)
    ensures ReadMembers(PrintMembers(ms, separator, gap, inner) + (w + ("}" + rest))) == Some((ms, rest))
    decreases ms, 0
  {
    var m, end := ms[0], w + ("}" + rest);
    var p := Print(m.value, inner);
    var s := PrintMembers(ms, separator, gap, inner) + end;
    if |ms| == 1 {
      MembersText(ms, separator, gap, inner, end, end);
      ReadPrinted(m.value, inner, end);
      hide *;
      ReadMember(s, m.key, gap, p + end, m.value, w, "}" + rest);
      assert ("}" + rest)[1..] == rest && ms == [m];
    } else {
      var more := PrintMembers(ms[1..], separator, gap, inner) + end;
      var tail := separator + more;
      MembersText(ms, separator, gap, inner, end, "," + tail);
      ReadPrinted(m.value, inner, "," + tail);
      ReadPrintedMembers(ms[1..], separator, gap, inner, w, rest);
      MembersBehind(separator, more);
      assert ms == [m] + ms[1..];
      hide ReadMembers, ReadValue, Print, PrintMembers, Quoted;
      ReadMemberComma(s, m, gap, p, tail);
    }
  }

  /** A member is read, and those behind its comma. */
  lemma ReadMemberComma(s: string, m: Member, gap: string, p: string, more: string)
    requires s == Quoted(m.key) + (":" + (gap + (p + ("," + more)))) && Blank(gap)
    requires ReadValue(p + ("," + more)) == Some((m.value, "," + more))
    ensures ReadMembers(s) == match ReadMembers(more) case None => None case Some(r) => Some(([m] + r.0, r.1))
  {
    var c, tail := ',', "," + more;
    assert !IsBlank(c);
    hide ReadValue, ReadMembers, IsBlank, Quoted;
    assert "" + tail == tail && tail[1..] == more && tail[0] == c;
    ReadMember(s, m.key, gap, p + tail, m.value, "", tail);
  }

  /** The first member, and what stands behind its value. */
  lemma MembersText(ms: seq<Member>, separator: string, gap: string, inner: Spacing, end: string, behind: string)
    requires ms != []
    requires behind == if |ms| == 1 then end
                       else "," + (separator + (PrintMembers(ms[1..], separator, gap, inner) + end))
    ensures PrintMembers(ms, separator, gap, inner) + end ==
            Quoted(ms[0].key) + (":" + (gap + (Print(ms[0].value, inner) + behind)))
  {
    var q, p := Quoted(ms[0].key), Print(ms[0].value, inner);
    MemberRegroup(q, gap, p, behind);
    if |ms| > 1 {
      var more := PrintMembers(ms[1..], separator, gap, inner);
      assert PrintMembers(ms, separator, gap, inner) == q + ":" + gap + p + "," + separator + more;
      hide Print, PrintMembers, Quoted;
      CommaRegroup(q + ":" + gap + p, separator, more, end);
    }
  }

  lemma MemberRegroup(q: string, gap: string, p: string, behind: string)
    ensures q + ":" + gap + p + behind == q + (":" + (gap + (p + behind)))
  {
  }

  /** A value printed in any spacing reads back as itself. */
  lemma ReadTextPrinted(v: Value, sp: Spacing)
    ensures ReadText(Print(v, sp)) == Some(v)
  {
    ReadPrinted(v, sp, "");
    assert Print(v, sp) + "" == Print(v, sp);
  }
}
