/** Formatting keeps the value of every text that the reader accepts, however it is spelled and
    laid out. */
module JsonMeaning {
  import opened Wrappers
  import opened Sequences
  import opened JsonNumber
  import opened Json
  import opened JsonRoundTrip
  import opened JsonFormat

  /** Formatting `s` writes `p` and goes on with `rest`. */
  predicate Writes(s: string, level: nat, p: string, rest: string, level': nat, indent: nat) {
    Format(s, Outside, level, indent) == Prefix(p, Format(rest, Outside, level', indent))
  }

  lemma WritesThen(s: string, level: nat, p: string, t: string, level1: nat, q: string, rest: string, level2: nat,
                   indent: nat)
    requires Writes(s, level, p, t, level1, indent) && Writes(t, level1, q, rest, level2, indent)
    ensures Writes(s, level, p + q, rest, level2, indent)
  {
    PrefixTwice(p, q, Format(rest, Outside, level2, indent));
    hide Format;
  }

  lemma {:induction false} FormatSkip(s: string, level: nat, indent: nat)
    ensures Format(s, Outside, level, indent) == Format(Skip(s), Outside, level, indent)
    decreases |s|
  {
    if s != "" && IsBlank(s[0]) {
      FormatSkip(s[1..], level, indent);
    }
  }

  /** One bracket, comma or colon behind white space. */
  lemma WritesMark(s: string, level: nat, indent: nat)
    requires Skip(s) != ""
    ensures var t, c := Skip(s), Skip(s)[0];
            && (Opens(c) ==> Writes(s, level, [c] + LineBreak(Indented(level + 1, indent)), t[1..], level + 1, indent))
            && (Closes(c) && level > 0 ==>
                  Writes(s, level, LineBreak(Indented(level - 1, indent)) + [c], t[1..], level - 1, indent))
            && (c == ',' ==> Writes(s, level, [c] + LineBreak(Indented(level, indent)), t[1..], level, indent))
            && (c == ':' ==> Writes(s, level, [c] + " ", t[1..], level, indent))
  {
    var t := Skip(s);
    FormatSkip(s, level, indent);
    assert [t[0]] + t[1..] == t;
    hide Format, Skip, LineBreak;
    FormatMark(t[0], t[1..], level, indent);
    if level > 0 {
      FormatMark(t[0], t[1..], level - 1, indent);
    }
  }

  // ----------------------------------------------------------------------------- strings

  /** The text of one character of a string, which the formatter copies. */
  predicate CharText(e: string) {
    && e != "" && e[0] != '"' && (e[0] == '\\' <==> |e| > 1)
    && forall i :: 2 <= i < |e| ==> e[i] != '"' && e[i] != '\\'
  }

  lemma ReadUnitText(s: string) returns (e: string)
    requires s != "" && ReadUnit(s).Some?
    ensures CharText(e) && s == e + ReadUnit(s).value.1
    ensures forall x :: ReadUnit(e + x) == Some((ReadUnit(s).value.0, x))
  {
    var rest := ReadUnit(s).value.1;
    e := s[..|s| - |rest|];
    if s[0] == '\\' && s[1] == 'u' {
      var code := s[2..6];
      assert HexCode(code).Some?;
      assert forall i :: 2 <= i < 6 ==> HexValue(code[i - 2]).Some? && e[i] == code[i - 2];
      forall x
        ensures (e + x)[2..6] == code && (e + x)[6..] == x
      {
      }
    } else {
      forall x
        ensures (e + x)[|e|..] == x
      {
      }
    }
    hide HexCode, HexValue;
  }

  lemma FormatCharText(e: string, rest: string, level: nat, indent: nat)
    requires CharText(e)
    ensures Format(e + rest, Inside, level, indent) == Prefix(e, Format(rest, Inside, level, indent))
  {
    var c, more := e[0], e[1..] + rest;
    assert e + rest == [c] + more && e == [c] + e[1..];
    assert Format([c] + more, Inside, level, indent) == Prefix([c], Format(more, NextMode(Inside, c), level, indent)) by {
      assert ([c] + more)[1..] == more;
    }
    if |e| == 1 {
      assert more == rest && e == [c];
    } else {
      FormatInside(e[1..], rest, level, indent);
      PrefixTwice([c], e[1..], Format(rest, Inside, level, indent));
    }
  }

  /** A string is copied up to its closing quote, and reads back as it did. */
  lemma {:induction false} StringText(s: string, level: nat, indent: nat) returns (p: string)
    requires ReadUnits(s).Some?
    ensures Format(s, Inside, level, indent) == Prefix(p, Format(ReadUnits(s).value.1, Outside, level, indent))
    ensures forall x :: ReadUnits(p + x) == Some((ReadUnits(s).value.0, x))
    decreases |s|
  {
    if s[0] == '"' {
      p := "\"";
      forall x
        ensures ReadUnits(p + x) == Some(([], x))
      {
        assert (p + x)[1..] == x;
      }
    } else {
      var e := ReadUnitText(s);
      var (u, rest) := ReadUnit(s).value;
      var q := StringText(rest, level, indent);
      p := e + q;
      FormatCharText(e, rest, level, indent);
      PrefixTwice(e, q, Format(ReadUnits(rest).value.1, Outside, level, indent));
      forall x
        ensures ReadUnits(p + x) == Some((ReadUnits(s).value.0, x))
      {
        assert p + x == e + (q + x);
        assert ReadUnit(e + (q + x)) == Some((u, q + x));
      }
    }
  }

  // ----------------------------------------------------------------------------- numbers

  lemma NumberText(s: string, after: string) returns (p: string)
    requires NumberEnd(s).Some? && Stops(after)
    ensures s == p + NumberEnd(s).value && p != "" && p[0] == s[0] && forall i :: 0 <= i < |p| ==> Plain(p[i])
    ensures ReadNumber(s) == Some((ReadNumber(s).value.0, NumberEnd(s).value))
    ensures ReadNumber(p + after) == Some((ReadNumber(s).value.0, after))
  {
    p := NumberAhead(s, after);
    assert s[..|p|] == p && (p + after)[..|p|] == p;
    assert forall i :: 0 <= i < |p| ==> NumberChar(p[i]);
    hide NumberEnd, NumberValue;
  }

  // ------------------------------------------------------------------------------ values

  /** White space in front of a value is dropped, and its first character kept. */
  predicate StartsLike(p: string, s: string) {
    p != "" && Skip(s) != "" && p[0] == Skip(s)[0]
  }

  lemma WordText(s: string, word: string, level: nat, indent: nat)
    requires Leads(Skip(s), word) && word in {"true", "false", "null"}
    ensures Writes(s, level, word, Skip(s)[|word|..], level, indent)
  {
    var t := Skip(s);
    FormatSkip(s, level, indent);
    assert t == word + t[|word|..];
    FormatPlain(word, t[|word|..], level, indent);
    hide Format, Skip;
  }

  lemma NumberValueText(s: string, after: string, level: nat, indent: nat) returns (p: string)
    requires ReadNumber(Skip(s)).Some? && Stops(after)
    ensures var (v, rest) := ReadNumber(Skip(s)).value;
            && Writes(s, level, p, rest, level, indent) && StartsLike(p, s)
            && ReadValue(p + after) == Some((v, after))
  {
    var t := Skip(s);
    var (v, rest) := ReadNumber(t).value;
    FormatSkip(s, level, indent);
    NumberHead(t);
    p := NumberText(t, after);
    FormatPlain(p, rest, level, indent);
    hide Format, ReadNumber, NumberEnd, Stops;
    ReadNumberValue(p, v, after);
  }

  lemma StringValueText(s: string, after: string, level: nat, indent: nat) returns (p: string)
    requires Skip(s) != "" && Skip(s)[0] == '"' && ReadString(Skip(s)[1..]).Some?
    ensures var (cs, rest) := ReadString(Skip(s)[1..]).value;
            && Writes(s, level, p, rest, level, indent) && StartsLike(p, s)
            && p[0] == '"' && ReadString(p[1..] + after) == Some((cs, after))
            && ReadValue(p + after) == Some((String(cs), after))
  {
    var t := Skip(s);
    var q := StringText(t[1..], level, indent);
    p := "\"" + q;
    QuoteAhead(q, after);
    ValueOfString(p + after);
    FormatSkip(s, level, indent);
    FormatQuote(t, level, indent);
    hide Format, StringBytes, ReadUnits, ReadValue;
    PrefixTwice("\"", q, Format(ReadString(t[1..]).value.1, Outside, level, indent));
  }

  lemma QuoteAhead(q: string, after: string)
    ensures var p := "\"" + q; p[0] == '"' && p[1..] == q && (p + after)[0] == '"' && (p + after)[1..] == q + after
  {
  }

  lemma FormatQuote(t: string, level: nat, indent: nat)
    requires t != "" && t[0] == '"'
    ensures Format(t, Outside, level, indent) == Prefix("\"", Format(t[1..], Inside, level, indent))
  {
  }

  /** A value is written so that it reads back as it did, before anything that does not go on
      with a number. */
  lemma {:induction false} ValueText(s: string, after: string, level: nat, indent: nat) returns (p: string)
    requires ReadValue(s).Some? && Stops(after)
    ensures var (v, rest) := ReadValue(s).value;
            Writes(s, level, p, rest, level, indent) && StartsLike(p, s) && ReadValue(p + after) == Some((v, after))
    decreases |s|, 1
  {
    var t := Skip(s);
    if t[0] == '{' {
      p := ObjectText(s, after, level, indent);
    } else if t[0] == '[' {
      p := ArrayText(s, after, level, indent);
    } else if t[0] == '"' {
      p := StringValueText(s, after, level, indent);
    } else {
      p := ScalarText(s, after, level, indent);
    }
    hide Writes, ReadString, ReadMembers, ReadElements, ReadNumber, Leads, Skip;
  }

  lemma ScalarText(s: string, after: string, level: nat, indent: nat) returns (p: string)
    requires ReadValue(s).Some? && Stops(after) && Skip(s)[0] !in {'{', '[', '"'}
    ensures var (v, rest) := ReadValue(s).value;
            Writes(s, level, p, rest, level, indent) && StartsLike(p, s) && ReadValue(p + after) == Some((v, after))
  {
    var t := Skip(s);
    hide Writes, ReadString, ReadMembers, ReadElements, ReadNumber, Skip;
    if Leads(t, "true") {
      p := "true";
      WordText(s, p, level, indent);
      ReadWord(Bool(true), Compact, after);
    } else if Leads(t, "false") {
      p := "false";
      WordText(s, p, level, indent);
      ReadWord(Bool(false), Compact, after);
    } else if Leads(t, "null") {
      p := "null";
      WordText(s, p, level, indent);
      ReadWord(Null, Compact, after);
    } else {
      p := NumberValueText(s, after, level, indent);
    }
  }

  lemma BreaksBlank(level: nat, indent: nat)
    ensures Blank(LineBreak(Indented(level + 1, indent)) + LineBreak(Indented(level, indent)))
    ensures Blank(LineBreak(Indented(level + 1, indent)))
  {
    LineBreakBlank(Indented(level + 1, indent));
    LineBreakBlank(Indented(level, indent));
  }

  /** Brackets with nothing but white space between them. */
  lemma EmptyWrites(s: string, level: nat, indent: nat)
    requires Skip(s) != "" && Opens(Skip(s)[0]) && Skip(Skip(s)[1..]) != "" && Closes(Skip(Skip(s)[1..])[0])
    ensures var t := Skip(s);
            var u := Skip(t[1..]);
            Writes(s, level, [t[0]] + LineBreak(Indented(level + 1, indent)) + (LineBreak(Indented(level, indent)) + [u[0]]),
                   u[1..], level, indent)
  {
    var t := Skip(s);
    WritesMark(s, level, indent);
    WritesMark(t[1..], level + 1, indent);
    hide Writes, Skip, LineBreak;
    WritesThen(s, level, [t[0]] + LineBreak(Indented(level + 1, indent)), t[1..], level + 1,
               LineBreak(Indented(level, indent)) + [Skip(t[1..])[0]], Skip(t[1..])[1..], level, indent);
  }

  /** A bracket and what is written behind it. */
  lemma NestedWrites(s: string, q: string, rest: string, level: nat, indent: nat)
    requires Skip(s) != "" && Opens(Skip(s)[0]) && Writes(Skip(s)[1..], level + 1, q, rest, level, indent)
    ensures Writes(s, level, [Skip(s)[0]] + LineBreak(Indented(level + 1, indent)) + q, rest, level, indent)
  {
    var t := Skip(s);
    WritesMark(s, level, indent);
    hide Writes, Skip, LineBreak;
    WritesThen(s, level, [t[0]] + LineBreak(Indented(level + 1, indent)), t[1..], level + 1, q, rest, level, indent);
  }

  lemma EmptyRegroup(open: string, down: string, up: string, close: string, after: string)
    ensures open + down + (up + close) + after == open + (down + up) + close + after
  {
  }

  lemma {:induction false} ArrayText(s: string, after: string, level: nat, indent: nat) returns (p: string)
    requires ReadValue(s).Some? && Skip(s)[0] == '['
    ensures var (v, rest) := ReadValue(s).value;
            Writes(s, level, p, rest, level, indent) && StartsLike(p, s) && ReadValue(p + after) == Some((v, after))
    decreases |s|, 0
  {
    var t := Skip(s);
    var u := Skip(t[1..]);
    var down, up := LineBreak(Indented(level + 1, indent)), LineBreak(Indented(level, indent));
    BreaksBlank(level, indent);
    hide Writes, ReadString, ReadElements, ReadMembers, ReadNumber, Leads, Skip, LineBreak;
    if u != "" && u[0] == ']' {
      EmptyWrites(s, level, indent);
      p := "[" + down + (up + "]");
      ReadEmpty(down + up, after);
      EmptyRegroup("[", down, up, "]", after);
    } else {
      var q := ElementsWritten(t[1..], after, level, indent);
      var (vs, rest) := ReadElements(t[1..]).value;
      NestedWrites(s, q, rest, level, indent);
      p := "[" + down + q;
      assert (q + after)[0] == q[0];
      ReadArray(down, q + after, vs, after);
      Regroup("[" + down, q, after, "");
    }
  }

  /** The last element and its bracket. */
  lemma LastElement(s: string, p: string, v: Value, rest: string, after: string, level: nat, indent: nat)
    requires Skip(rest) != "" && Skip(rest)[0] == ']'
    requires Writes(s, level + 1, p, rest, level + 1, indent)
    requires var up := LineBreak(Indented(level, indent)); ReadValue(p + (up + ("]" + after))) == Some((v, up + ("]" + after)))
    ensures var q := p + (LineBreak(Indented(level, indent)) + "]");
            && Writes(s, level + 1, q, Skip(rest)[1..], level, indent)
            && ReadElements(q + after) == Some(([v], after))
  {
    var up := LineBreak(Indented(level, indent));
    LineBreakBlank(Indented(level, indent));
    WritesMark(rest, level + 1, indent);
    WritesThen(s, level + 1, p, rest, level + 1, up + [']'], Skip(rest)[1..], level, indent);
    StopsBehind(up, "]" + after);
    ReadElement(p, v, up, "]" + after);
    hide Writes, ReadValue, ReadElements, Skip, LineBreak;
    assert ("]" + after)[1..] == after && p + (up + ("]" + after)) == p + (up + "]") + after;
  }

  /** White space and punctuation do not go on with a number. */
  lemma StopsBehind(w: string, rest: string)
    requires Blank(w) && rest != "" && rest[0] in {']', '}', ','}
    ensures Stops(w + rest)
  {
    assert w != "" ==> (w + rest)[0] == w[0];
    assert w == "" ==> (w + rest)[0] == rest[0];
  }

  /** An element and those behind its comma. */
  lemma MoreElements(s: string, p: string, v: Value, rest: string, q: string, vs: seq<Value>, rest': string, after: string,
                     level: nat, indent: nat)
    requires Skip(rest) != "" && Skip(rest)[0] == ','
    requires Writes(s, level + 1, p, rest, level + 1, indent)
    requires Writes(Skip(rest)[1..], level + 1, q, rest', level, indent) && ReadElements(q + after) == Some((vs, after))
    requires var tail := "," + (LineBreak(Indented(level + 1, indent)) + (q + after));
             ReadValue(p + tail) == Some((v, tail))
    ensures var q' := p + ("," + LineBreak(Indented(level + 1, indent)) + q);
            && Writes(s, level + 1, q', rest', level, indent)
            && ReadElements(q' + after) == Some(([v] + vs, after))
  {
    var w := LineBreak(Indented(level + 1, indent));
    var tail := "," + (w + (q + after));
    LineBreakBlank(Indented(level + 1, indent));
    WritesMark(rest, level + 1, indent);
    WritesThen(rest, level + 1, [','] + w, Skip(rest)[1..], level + 1, q, rest', level, indent);
    WritesThen(s, level + 1, p, rest, level + 1, [','] + w + q, rest', level, indent);
    ElementsBehind(w, q + after);
    hide Writes, ReadValue, ReadElements, Skip, LineBreak;
    ReadFirst(p, v, w + (q + after));
    CommaText(p, w, q, after);
  }

  lemma {:induction false} ElementsWritten(s: string, after: string, level: nat, indent: nat) returns (q: string)
    requires ReadElements(s).Some?
    ensures var (vs, rest) := ReadElements(s).value;
            && Writes(s, level + 1, q, rest, level, indent) && StartsLike(q, s)
            && ReadElements(q + after) == Some((vs, after))
    decreases |s|, 2
  {
    var (v, rest) := ReadValue(s).value;
    var t := Skip(rest);
    if t[0] == ']' {
      var up := LineBreak(Indented(level, indent));
      LineBreakBlank(Indented(level, indent));
      StopsBehind(up, "]" + after);
      var p := ValueText(s, up + ("]" + after), level + 1, indent);
      LastElement(s, p, v, rest, after, level, indent);
      q := p + (up + "]");
    } else {
      var w := LineBreak(Indented(level + 1, indent));
      var more := ElementsWritten(t[1..], after, level, indent);
      var (vs, rest') := ReadElements(t[1..]).value;
      var p := ValueText(s, "," + (w + (more + after)), level + 1, indent);
      MoreElements(s, p, v, rest, more, vs, rest', after, level, indent);
      q := p + ("," + w + more);
    }
    hide Writes, ReadValue, Skip, LineBreak;
  }

  lemma {:induction false} ObjectText(s: string, after: string, level: nat, indent: nat) returns (p: string)
    requires ReadValue(s).Some? && Skip(s)[0] == '{'
    ensures var (v, rest) := ReadValue(s).value;
            Writes(s, level, p, rest, level, indent) && StartsLike(p, s) && ReadValue(p + after) == Some((v, after))
    decreases |s|, 0
  {
    var t := Skip(s);
    var u := Skip(t[1..]);
    var down, up := LineBreak(Indented(level + 1, indent)), LineBreak(Indented(level, indent));
    BreaksBlank(level, indent);
    hide Writes, ReadString, ReadMembers, ReadElements, ReadNumber, Leads, Skip, LineBreak;
    if u != "" && u[0] == '}' {
      EmptyWrites(s, level, indent);
      p := "{" + down + (up + "}");
      ReadEmpty(down + up, after);
      EmptyRegroup("{", down, up, "}", after);
    } else {
      var q := MembersWritten(t[1..], after, level, indent);
      var (vs, rest) := ReadMembers(t[1..]).value;
      NestedWrites(s, q, rest, level, indent);
      p := "{" + down + q;
      assert (q + after)[0] == q[0];
      ReadObject(down, q + after, vs, after);
      Regroup("{" + down, q, after, "");
    }
  }

  /** A key, its colon and its value. */
  lemma KeyAndValue(s: string, k: string, key: string, afterKey: string, p: string, rest: string, level: nat, indent: nat)
    requires Skip(afterKey) != "" && Skip(afterKey)[0] == ':'
    requires Writes(s, level, k, afterKey, level, indent) && Writes(Skip(afterKey)[1..], level, p, rest, level, indent)
    ensures Writes(s, level, k + (": " + p), rest, level, indent)
  {
    WritesMark(afterKey, level, indent);
    hide Writes, Skip;
    WritesThen(afterKey, level, [':'] + " ", Skip(afterKey)[1..], level, p, rest, level, indent);
    WritesThen(s, level, k, afterKey, level, [':'] + " " + p, rest, level, indent);
    assert [':'] + " " + p == ": " + p;
  }

  lemma MemberText(k: string, p: string, behind: string) returns (s: string, afterKey: string)
    requires k != "" && k[0] == '"'
    ensures s == k + (": " + p) + behind && afterKey == ": " + (p + behind)
    ensures s != "" && s[0] == '"' && s[1..] == k[1..] + afterKey
    ensures afterKey != "" && afterKey[0] == ':' && afterKey[1..] == " " + (p + behind)
  {
    s, afterKey := k + (": " + p) + behind, ": " + (p + behind);
    assert s == k + afterKey;
  }

  /** Such a member is read, by what follows it. */
  lemma MemberAgain(k: string, key: string, p: string, v: Value, behind: string, rest: string)
    requires k != "" && k[0] == '"' && ReadString(k[1..] + (": " + (p + behind))) == Some((key, ": " + (p + behind)))
    requires ReadValue(p + behind) == Some((v, behind)) && Skip(behind) == rest && rest != ""
    ensures var s := k + (": " + p) + behind;
            && (rest[0] == '}' ==> ReadMembers(s) == Some(([Member(key, v)], rest[1..])))
            && (rest[0] == ',' ==>
                  ReadMembers(s) ==
                  match ReadMembers(rest[1..]) case None => None case Some(r) => Some(([Member(key, v)] + r.0, r.1)))
  {
    var s, afterKey := MemberText(k, p, behind);
    assert Skip(s) == s && Skip(afterKey) == afterKey;
    ValueBehind(" ", p + behind);
    hide *;
    ReadMemberStep(s, key, afterKey, v, behind, rest);
  }

  /** The last member and its brace. */
  lemma LastMember(s: string, k: string, key: string, p: string, v: Value, rest: string, after: string,
                   level: nat, indent: nat)
    requires Skip(rest) != "" && Skip(rest)[0] == '}'
    requires Writes(s, level + 1, k + (": " + p), rest, level + 1, indent)
    requires k != "" && k[0] == '"'
    requires var behind := LineBreak(Indented(level, indent)) + ("}" + after);
             && ReadString(k[1..] + (": " + (p + behind))) == Some((key, ": " + (p + behind)))
             && ReadValue(p + behind) == Some((v, behind))
    ensures var q := k + (": " + p) + (LineBreak(Indented(level, indent)) + "}");
            && Writes(s, level + 1, q, Skip(rest)[1..], level, indent)
            && ReadMembers(q + after) == Some(([Member(key, v)], after))
  {
    var up := LineBreak(Indented(level, indent));
    LineBreakBlank(Indented(level, indent));
    WritesMark(rest, level + 1, indent);
    WritesThen(s, level + 1, k + (": " + p), rest, level + 1, up + ['}'], Skip(rest)[1..], level, indent);
    SkipTo(up, "}" + after);
    MemberAgain(k, key, p, v, up + ("}" + after), "}" + after);
    hide Writes, ReadValue, ReadString, ReadMembers, Skip, LineBreak;
    assert ("}" + after)[1..] == after;
    Regroup(k + (": " + p), up, "}", after);
    Regroup(k + (": " + p), up + "}", after, "");
  }

  /** A member and those behind its comma. */
  lemma MoreMembers(s: string, k: string, key: string, p: string, v: Value, rest: string, q: string, ms: seq<Member>,
                    rest': string, after: string, level: nat, indent: nat)
    requires Skip(rest) != "" && Skip(rest)[0] == ','
    requires Writes(s, level + 1, k + (": " + p), rest, level + 1, indent)
    requires Writes(Skip(rest)[1..], level + 1, q, rest', level, indent) && ReadMembers(q + after) == Some((ms, after))
    requires k != "" && k[0] == '"'
    requires var behind := "," + (LineBreak(Indented(level + 1, indent)) + (q + after));
             && ReadString(k[1..] + (": " + (p + behind))) == Some((key, ": " + (p + behind)))
             && ReadValue(p + behind) == Some((v, behind))
    ensures var q' := k + (": " + p) + ("," + LineBreak(Indented(level + 1, indent)) + q);
            && Writes(s, level + 1, q', rest', level, indent)
            && ReadMembers(q' + after) == Some(([Member(key, v)] + ms, after))
  {
    var w := LineBreak(Indented(level + 1, indent));
    var behind := "," + (w + (q + after));
    LineBreakBlank(Indented(level + 1, indent));
    WritesMark(rest, level + 1, indent);
    WritesThen(rest, level + 1, [','] + w, Skip(rest)[1..], level + 1, q, rest', level, indent);
    WritesThen(s, level + 1, k + (": " + p), rest, level + 1, [','] + w + q, rest', level, indent);
    assert Skip(behind) == behind && behind[1..] == w + (q + after);
    MembersBehind(w, q + after);
    MemberAgain(k, key, p, v, behind, behind);
    hide Writes, ReadValue, ReadString, ReadMembers, Skip, LineBreak;
    CommaText(k + (": " + p), w, q, after);
  }

  lemma CommaText(p: string, w: string, q: string, after: string)
    ensures p + ("," + w + q) + after == p + ("," + (w + (q + after)))
  {
  }

  lemma {:induction false} MembersWritten(s: string, after: string, level: nat, indent: nat) returns (q: string)
    requires ReadMembers(s).Some?
    ensures var (ms, rest) := ReadMembers(s).value;
            && Writes(s, level + 1, q, rest, level, indent) && StartsLike(q, s)
            && ReadMembers(q + after) == Some((ms, after))
    decreases |s|, 2
  {
    var (key, afterKey) := ReadString(Skip(s)[1..]).value;
    var u := Skip(afterKey);
    var (v, rest) := ReadValue(u[1..]).value;
    var t := Skip(rest);
    hide Writes, Skip, LineBreak;
    if t[0] == '}' {
      var behind := LineBreak(Indented(level, indent)) + ("}" + after);
      LineBreakBlank(Indented(level, indent));
      StopsBehind(LineBreak(Indented(level, indent)), "}" + after);
      var p := ValueText(u[1..], behind, level + 1, indent);
      var k := StringValueText(s, ": " + (p + behind), level + 1, indent);
      KeyAndValue(s, k, key, afterKey, p, rest, level + 1, indent);
      LastMember(s, k, key, p, v, rest, after, level, indent);
      q := k + (": " + p) + (LineBreak(Indented(level, indent)) + "}");
    } else {
      var more := MembersWritten(t[1..], after, level, indent);
      var (ms, rest') := ReadMembers(t[1..]).value;
      var behind := "," + (LineBreak(Indented(level + 1, indent)) + (more + after));
      var p := ValueText(u[1..], behind, level + 1, indent);
      var k := StringValueText(s, ": " + (p + behind), level + 1, indent);
      KeyAndValue(s, k, key, afterKey, p, rest, level + 1, indent);
      MoreMembers(s, k, key, p, v, rest, more, ms, rest', after, level, indent);
      q := k + (": " + p) + ("," + LineBreak(Indented(level + 1, indent)) + more);
    }
    hide ReadValue, ReadString;
  }

  /** Formatting a text that the reader accepts succeeds, and the result has the same value. */
  lemma FormatKeepsValue(s: string, indent: nat)
    requires ReadText(s).Some?
    ensures Format(s, Outside, 0, indent).Some?
    ensures ReadText(Format(s, Outside, 0, indent).value) == ReadText(s)
  {
    var (v, rest) := ReadValue(s).value;
    var p := ValueText(s, "", 0, indent);
    FormatSkip(rest, 0, indent);
    hide ReadValue, Skip;
    assert Skip("") == "";
    assert p + "" == p;
  }
}
