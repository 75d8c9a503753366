/** How formatted and built texts are laid out: where their lines break, and how far each is indented. */
module JsonLayout {
  import opened Wrappers
  import opened Text
  import opened Decimal
  import opened Json
  import opened JsonFormat

  /** Where the reader of a layout stands: in a string, behind a backslash in one, at the beginning of a
      line, or elsewhere. */
  datatype Place = InString | BehindBackslash | LineStart | InLine

  predicate StartsLine(s: string) {
    s != "" && s[0] == '\n'
  }

  /** The rest of a text, `level` brackets deep. Outside strings an opening bracket and a comma end
      their lines, a closing bracket begins one, a colon is followed by a blank; a line begins with
      `indent` blanks for every bracket around it, its own closing bracket not counted; and there is no
      other white space. */
  predicate LaidOut(s: string, place: Place, level: int, indent: int)
    decreases |s|
  {
    s == "" ||
    var c, rest := s[0], s[1..];
    if place == BehindBackslash then LaidOut(rest, InString, level, indent)
    else if place == InString then
      LaidOut(rest, if c == '\\' then BehindBackslash else if c == '"' then InLine else InString, level, indent)
    else if c == '"' then LaidOut(rest, InString, level, indent)
    else if c == '{' || c == '[' then StartsLine(rest) && LaidOut(rest, InLine, level + 1, indent)
    else if c == '}' || c == ']' then place == LineStart && LaidOut(rest, InLine, level - 1, indent)
    else if c == ',' then StartsLine(rest) && LaidOut(rest, InLine, level, indent)
    else if c == ':' then rest != "" && rest[0] == ' ' && LaidOut(rest[1..], InLine, level, indent)
    else if c == '\n' then
      var n := LeadingBlanks(rest);
      var closing := n < |rest| && (rest[n] == '}' || rest[n] == ']');
      n == (if closing then level - 1 else level) * indent && LaidOut(rest[n..], LineStart, level, indent)
    else c != ' ' && c != '\t' && c != '\r' && LaidOut(rest, InLine, level, indent)
  }

  function PlaceOf(mode: Mode): Place {
    match mode
    case Outside => InLine
    case Inside => InString
    case Escaped => BehindBackslash
  }

  // ----------------------------------------------------------------------------- the formatter

  lemma {:induction false} CountBlanks(n: nat, more: string)
    requires more != "" ==> more[0] != ' '
    ensures LeadingBlanks(Blanks(n) + more) == n
    decreases n
  {
    var s := Blanks(n) + more;
    if n == 0 {
      assert s == more;
    } else {
      assert s[0] == ' ' && s[1..] == Blanks(n - 1) + more;
      CountBlanks(n - 1, more);
    }
  }

  /** What is written outside strings begins neither with a blank nor with a closing bracket. */
  lemma {:induction false} WrittenHead(s: string, level: int, indent: int)
    requires Format(s, Outside, level, indent).Some?
    ensures var t := Format(s, Outside, level, indent).value;
            t != "" ==> t[0] != ' ' && t[0] != '}' && t[0] != ']'
    decreases |s|
  {
    if s != "" && IsBlank(s[0]) {
      WrittenHead(s[1..], level, indent);
    }
  }

  /** A line and what stands on it. */
  lemma LineLaid(n: nat, more: string, place: Place, level: int, indent: int)
    requires place == InLine || place == LineStart
    requires more != "" ==> more[0] != ' '
    requires n == (if more != "" && (more[0] == '}' || more[0] == ']') then level - 1 else level) * indent
    requires LaidOut(more, LineStart, level, indent)
    ensures LaidOut("\n" + (Blanks(n) + more), place, level, indent)
  {
    var rest := Blanks(n) + more;
    var s := "\n" + rest;
    CountBlanks(n, more);
    assert s[0] == '\n' && s[1..] == rest && rest[n..] == more;
    hide LeadingBlanks, Blanks;
  }

  /** Text that does not begin with a closing bracket is laid out the same at the beginning of a line. */
  lemma AtLineStart(s: string, level: int, indent: int)
    requires LaidOut(s, InLine, level, indent)
    ensures LaidOut(s, LineStart, level, indent)
  {
  }

  lemma OpenLaid(c: char, n: nat, more: string, place: Place, level: int, indent: int)
    requires c == '{' || c == '[' || c == ','
    requires place == InLine || place == LineStart
    requires more != "" ==> more[0] != ' ' && more[0] != '}' && more[0] != ']'
    requires var inner := if c == ',' then level else level + 1;
             n == inner * indent && LaidOut(more, InLine, inner, indent)
    ensures LaidOut([c] + "\n" + Blanks(n) + more, place, level, indent)
  {
    var inner := if c == ',' then level else level + 1;
    var line := "\n" + (Blanks(n) + more);
    var s := [c] + "\n" + Blanks(n) + more;
    assert s == [c] + line && s[0] == c && s[1..] == line;
    AtLineStart(more, inner, indent);
    LineLaid(n, more, InLine, inner, indent);
    hide Blanks;
  }

  lemma CloseLaid(c: char, n: nat, more: string, place: Place, level: int, indent: int)
    requires c == '}' || c == ']'
    requires place == InLine || place == LineStart
    requires n == (level - 1) * indent && LaidOut(more, InLine, level - 1, indent)
    ensures LaidOut("\n" + Blanks(n) + [c] + more, place, level, indent)
  {
    var rest := [c] + more;
    assert rest[0] == c && rest[1..] == more;
    assert "\n" + Blanks(n) + [c] + more == "\n" + (Blanks(n) + rest);
    hide Blanks;
    LineLaid(n, rest, place, level, indent);
  }

  lemma OneLaid(c: char, t: string, mode: Mode, level: int, indent: int)
    requires LaidOut(t, PlaceOf(NextMode(mode, c)), level, indent)
    requires mode == Outside ==> !Opens(c) && !Closes(c) && c != ',' && c != ':' && !IsBlank(c)
    ensures LaidOut([c] + t, PlaceOf(mode), level, indent)
  {
    assert ([c] + t)[0] == c && ([c] + t)[1..] == t;
  }

  lemma ColonLaid(t: string, level: int, indent: int)
    requires LaidOut(t, InLine, level, indent)
    ensures LaidOut([':'] + " " + t, InLine, level, indent)
  {
    var s := [':'] + " " + t;
    assert s[0] == ':' && s[1..][0] == ' ' && s[1..][1..] == t;
  }

  /** Whatever the text, what the formatter writes for it is laid out so. */
  lemma {:induction false} FormattedIsLaidOut(s: string, mode: Mode, level: int, indent: int)
    requires Format(s, mode, level, indent).Some?
    ensures LaidOut(Format(s, mode, level, indent).value, PlaceOf(mode), level, indent)
    decreases |s|
  {
    hide LaidOut;
    if s == "" {
      NothingLaid(PlaceOf(mode), level, indent);
    } else {
      var c, rest := s[0], s[1..];
      if mode == Outside && IsBlank(c) {
        FormattedIsLaidOut(rest, Outside, level, indent);
      } else {
        var level' := if mode != Outside then level else if Opens(c) then level + 1 else if Closes(c) then level - 1 else level;
        FormattedIsLaidOut(rest, NextMode(mode, c), level', indent);
        var t := Format(rest, NextMode(mode, c), level', indent).value;
        if mode == Outside {
          OutsideLaid(c, rest, t, level, level', indent);
        } else {
          OneLaid(c, t, mode, level, indent);
        }
      }
    }
  }

  lemma NothingLaid(place: Place, level: int, indent: int)
    ensures LaidOut("", place, level, indent)
  {
  }

  lemma OutsideLaid(c: char, rest: string, t: string, level: int, level': int, indent: int)
    requires !IsBlank(c) && level' == if Opens(c) then level + 1 else if Closes(c) then level - 1 else level
    requires Format([c] + rest, Outside, level, indent).Some?
    requires Format(rest, NextMode(Outside, c), level', indent) == Some(t)
    requires LaidOut(t, PlaceOf(NextMode(Outside, c)), level', indent)
    ensures LaidOut(Format([c] + rest, Outside, level, indent).value, InLine, level, indent)
  {
    assert ([c] + rest)[0] == c && ([c] + rest)[1..] == rest;
    if c != '"' {
      WrittenHead(rest, level', indent);
    }
    hide LaidOut;
    if Opens(c) || c == ',' {
      OpenLaid(c, level' * indent, t, InLine, level, indent);
    } else if Closes(c) {
      CloseLaid(c, level' * indent, t, InLine, level, indent);
    } else if c == ':' {
      ColonLaid(t, level, indent);
    } else {
      OneLaid(c, t, Outside, level, indent);
    }
  }

  // ---------------------------------------------------------------------------- compact texts

  function NextPlace(c: char, place: Place): Place {
    if place == BehindBackslash then InString
    else if place == InString then if c == '\\' then BehindBackslash else if c == '"' then InLine else InString
    else if c == '"' then InString else InLine
  }

  /** Where the reader stands behind a text. */
  function After(s: string, place: Place): Place
    decreases |s|
  {
    if s == "" then place else After(s[1..], NextPlace(s[0], place))
  }

  /** No white space outside strings. */
  predicate Tight(s: string, place: Place)
    decreases |s|
  {
    s == "" ||
    ((place == InLine || place == LineStart ==> s[0] != ' ' && s[0] != '\t' && s[0] != '\n' && s[0] != '\r')
     && Tight(s[1..], NextPlace(s[0], place)))
  }

  lemma {:induction false} TightJoin(a: string, b: string, place: Place)
    ensures After(a + b, place) == After(b, After(a, place))
    ensures Tight(a + b, place) <==> Tight(a, place) && Tight(b, After(a, place))
    decreases |a|
  {
    if a == "" {
      assert a + b == b;
    } else {
      assert (a + b)[0] == a[0] && (a + b)[1..] == a[1..] + b;
      TightJoin(a[1..], b, NextPlace(a[0], place));
    }
  }

  /** A text without white space outside strings, with the quotes of its strings in pairs. */
  predicate Whole(s: string) {
    Tight(s, InLine) && After(s, InLine) == InLine
  }

  lemma WholeJoin(a: string, b: string)
    requires Whole(a) && Whole(b)
    ensures Whole(a + b)
  {
    TightJoin(a, b, InLine);
  }

  lemma {:induction false} PlainIsWhole(s: string)
    requires forall i :: 0 <= i < |s| ==> s[i] != ' ' && s[i] != '\t' && s[i] != '\n' && s[i] != '\r' && s[i] != '"'
    ensures Whole(s)
    decreases |s|
  {
    if s != "" {
      PlainIsWhole(s[1..]);
    }
  }

  lemma EscapedInString(c: char)
    ensures Tight(EscapeChar(c), InString) && After(EscapeChar(c), InString) == InString
  {
    var e := EscapeChar(c);
    assert e[0] == '\\' <==> |e| > 1;
    if |e| == 1 {
      assert e[1..] == "";
    } else if |e| == 2 {
      TwoInString(e);
    } else {
      assert e == "\\u00" + [e[4], e[5]] by {
        assert e == "\\u00" + [HEX[c as int / 16], HEX[c as int % 16]];
      }
      HexDigitIs(c as int / 16);
      HexDigitIs(c as int % 16);
      SixInString(e);
    }
  }

  lemma HexDigitIs(v: nat)
    requires v < 16
    ensures HEX[v] != '"' && HEX[v] != '\\'
  {
    var h := "0123456789abcdef";
    assert HEX[v] == h[v];
  }

  lemma TwoInString(e: string)
    requires |e| == 2 && e[0] == '\\'
    ensures Tight(e, InString) && After(e, InString) == InString
  {
    var t := e[1..];
    assert t[0] == e[1] && t[1..] == "";
    assert After(e, InString) == After(t, BehindBackslash) == After("", InString);
    assert Tight(t, BehindBackslash);
  }

  lemma SixInString(e: string)
    requires |e| == 6 && e[0] == '\\' && forall i :: 2 <= i < 6 ==> e[i] != '"' && e[i] != '\\'
    ensures Tight(e, InString) && After(e, InString) == InString
  {
    TwoInString(e[..2]);
    LettersInString(e[2..]);
    assert e == e[..2] + e[2..];
    TightJoin(e[..2], e[2..], InString);
  }

  lemma {:induction false} LettersInString(s: string)
    requires forall i :: 0 <= i < |s| ==> s[i] != '"' && s[i] != '\\'
    ensures Tight(s, InString) && After(s, InString) == InString
    decreases |s|
  {
    if s != "" {
      LettersInString(s[1..]);
    }
  }

  lemma {:induction false} EscapeInString(s: string)
    ensures Tight(Escape(s), InString) && After(Escape(s), InString) == InString
    decreases |s|
  {
    if s != "" {
      EscapedInString(s[0]);
      EscapeInString(s[1..]);
      TightJoin(EscapeChar(s[0]), Escape(s[1..]), InString);
    }
  }

  lemma QuotedIsWhole(s: string)
    ensures Whole(Quoted(s))
  {
    var q, e := "\"", Escape(s);
    EscapeInString(s);
    assert q[0] == '"' && q[1..] == "";
    hide Escape;
    TightJoin(q, e, InLine);
    TightJoin(q + e, q, InLine);
  }

  /** Compact texts have no white space outside strings. */
  lemma {:induction false} CompactIsWhole(v: Value)
    ensures Whole(Print(v, Compact))
    decreases v
  {
    hide Whole;
    match v
    case Null => PlainIsWhole("null");
    case Bool(b) => PlainIsWhole(if b then "true" else "false");
    case Number(_) => ScalarIsWhole(v);
    case Fraction(_) => ScalarIsWhole(v);
    case String(s) => QuotedIsWhole(s);
    case Array(vs) =>
      ElementsAreWhole(vs);
      Enclosed("[", PrintElements(vs, Compact), "]");
    case Object(ms) =>
      MembersAreWhole(ms);
      Enclosed("{", PrintMembers(ms, "", "", Compact), "}");
  }

  lemma ScalarIsWhole(v: Value)
    requires v.Number? || v.Fraction?
    ensures Whole(Print(v, Compact))
  {
    var w := Print(v, Compact);
    if v.Number? {
      DigitsShape(if v.n < 0 then -v.n else v.n);
    } else {
      FractionIsPlain(w);
    }
    hide Digits;
    assert forall i :: 0 <= i < |w| ==> Plain(w[i]);
    PlainIsWhole(w);
  }

  lemma Enclosed(open: string, body: string, close: string)
    requires (open == "[" && close == "]") || (open == "{" && close == "}")
    requires Whole(body)
    ensures Whole(open + "" + body + "" + close)
  {
    PlainIsWhole(open);
    PlainIsWhole(close);
    hide Whole;
    WholeJoin(open, body);
    WholeJoin(open + body, close);
    assert open + "" + body + "" + close == open + body + close;
  }

  lemma {:induction false} ElementsAreWhole(vs: seq<Value>)
    ensures Whole(PrintElements(vs, Compact))
    decreases vs
  {
    if vs == [] {
      PlainIsWhole("");
    } else {
      CompactIsWhole(vs[0]);
      if |vs| > 1 {
        ElementsAreWhole(vs[1..]);
        hide Whole;
        ElementIsWhole(Print(vs[0], Compact), PrintElements(vs[1..], Compact));
      }
    }
  }

  lemma ElementIsWhole(p: string, more: string)
    requires Whole(p) && Whole(more)
    ensures Whole(p + "," + "" + more)
  {
    PlainIsWhole(",");
    hide *;
    WholeJoin(p, ",");
    WholeJoin(p + ",", more);
    assert p + "," + "" + more == p + "," + more;
  }

  lemma {:induction false} MembersAreWhole(ms: seq<Member>)
    ensures Whole(PrintMembers(ms, "", "", Compact))
    decreases ms
  {
    if ms == [] {
      PlainIsWhole("");
    } else {
      var q, p := Quoted(ms[0].key), Print(ms[0].value, Compact);
      var more := if |ms| > 1 then PrintMembers(ms[1..], "", "", Compact) else "";
      var behind := if |ms| > 1 then "," + (more + "") else "";
      QuotedIsWhole(ms[0].key);
      CompactIsWhole(ms[0].value);
      if |ms| > 1 {
        MembersAreWhole(ms[1..]);
      }
      CompactText(ms, "", behind);
      hide Whole, Quoted, Print, PrintMembers;
      MemberIsWhole(q, p, |ms| > 1, more, behind);
      assert PrintMembers(ms, "", "", Compact) + "" == PrintMembers(ms, "", "", Compact);
    }
  }

  lemma MemberIsWhole(q: string, p: string, goesOn: bool, more: string, behind: string)
    requires Whole(q) && Whole(p) && (goesOn ==> Whole(more)) && behind == if goesOn then "," + (more + "") else ""
    ensures Whole(q + (":" + (p + behind)))
  {
    PlainIsWhole(":");
    PlainIsWhole(",");
    PlainIsWhole("");
    hide Whole;
    assert more + "" == more;
    if goesOn {
      WholeJoin(",", more);
    }
    WholeJoin(p, behind);
    WholeJoin(":", p + behind);
    WholeJoin(q, ":" + (p + behind));
  }
}
