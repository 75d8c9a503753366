/** The formatter, which rewrites white space without parsing. */
module JsonFormat {
  import opened Wrappers
  import opened Sequences
  import opened Decimal
  import opened JsonNumber
  import opened Json
  import opened JsonRoundTrip

  /** Where in the text a character stands. */
  datatype Mode = Outside | Inside | Escaped

  function NextMode(mode: Mode, c: char): Mode {
    match mode
    case Outside => if c == '"' then Inside else Outside
    case Inside => if c == '\\' then Escaped else if c == '"' then Outside else Inside
    case Escaped => Inside
  }

  predicate Opens(c: char) {
    c == '{' || c == '['
  }

  predicate Closes(c: char) {
    c == '}' || c == ']'
  }

  /** A string of a negative length cannot be made: the request is an error. */
  function Pad(n: int): Option<string> {
    if n < 0 then None else Some(Blanks(n))
  }

  function Prefix(p: string, o: Option<string>): Option<string> {
    match o
    case None => None
    case Some(t) => Some(p + t)
  }

  /** What is written for the rest of a text, from a place in it. */
  function Format(s: string, mode: Mode, level: int, indent: int): Option<string>
    decreases |s|
  {
    if s == "" then Some("")
    else
      var c, rest := s[0], s[1..];
      if mode != Outside then Prefix([c], Format(rest, NextMode(mode, c), level, indent))
      else if Opens(c) then
        var pad :- Pad((level + 1) * indent);
        Prefix([c] + "\n" + pad, Format(rest, Outside, level + 1, indent))
      else if Closes(c) then
        var pad :- Pad((level - 1) * indent);
        Prefix("\n" + pad + [c], Format(rest, Outside, level - 1, indent))
      else if c == ',' then
        var pad :- Pad(level * indent);
        Prefix([c] + "\n" + pad, Format(rest, Outside, level, indent))
      else if c == ':' then Prefix([c] + " ", Format(rest, Outside, level, indent))
      else if IsBlank(c) then Format(rest, Outside, level, indent)
      else Prefix([c], Format(rest, NextMode(mode, c), level, indent))
  }

  /** The text without the white space outside its strings. */
  function Strip(s: string, mode: Mode): string
    decreases |s|
  {
    if s == "" then ""
    else if mode == Outside && IsBlank(s[0]) then Strip(s[1..], Outside)
    else [s[0]] + Strip(s[1..], NextMode(mode, s[0]))
  }

  // ------------------------------------------------------------- only white space changes

  /** The result depends only on what is not white space. */
  lemma {:induction false} FormatStripped(s: string, mode: Mode, level: int, indent: int)
    ensures Format(Strip(s, mode), mode, level, indent) == Format(s, mode, level, indent)
    decreases |s|
  {
    if s != "" {
      var c, rest := s[0], s[1..];
      if mode == Outside && IsBlank(c) {
        FormatStripped(rest, Outside, level, indent);
      } else {
        var t := Strip(rest, NextMode(mode, c));
        assert ([c] + t)[0] == c && ([c] + t)[1..] == t;
        var level' := if mode != Outside then level
                      else if Opens(c) then level + 1 else if Closes(c) then level - 1 else level;
        FormatStripped(rest, NextMode(mode, c), level', indent);
        hide Pad, Strip;
      }
    }
  }

  lemma {:induction false} StripBlanks(w: string, s: string)
    requires Blank(w)
    ensures Strip(w + s, Outside) == Strip(s, Outside)
  {
    if w == "" {
      assert w + s == s;
    } else {
      assert (w + s)[0] == w[0] && (w + s)[1..] == w[1..] + s;
      StripBlanks(w[1..], s);
    }
  }

  /** One character with white space before and behind it. */
  lemma StripPadded(before: string, c: char, after: string, t: string)
    requires Blank(before) && Blank(after) && !IsBlank(c)
    ensures Strip(before + [c] + after + t, Outside) ==
            [c] + if c == '"' then Strip(after + t, Inside) else Strip(t, Outside)
  {
    assert before + [c] + after + t == before + ([c] + (after + t));
    StripBlanks(before, [c] + (after + t));
    assert ([c] + (after + t))[1..] == after + t;
    StripBlanks(after, t);
  }

  lemma PadBlank(n: int)
    ensures Pad(n).Some? ==> Blank(Pad(n).value) && Blank("\n" + Pad(n).value)
  {
  }

  /** What is written differs from what was read only in that white space. */
  lemma {:induction false} StripFormatted(s: string, mode: Mode, level: int, indent: int)
    requires Format(s, mode, level, indent).Some?
    ensures Strip(Format(s, mode, level, indent).value, mode) == Strip(s, mode)
    decreases |s|
  {
    if s != "" {
      var c, rest := s[0], s[1..];
      if mode != Outside {
        StripFormatted(rest, NextMode(mode, c), level, indent);
        var t := Format(rest, NextMode(mode, c), level, indent).value;
        assert ([c] + t)[1..] == t;
      } else if Opens(c) || Closes(c) {
        var level' := if Opens(c) then level + 1 else level - 1;
        StripFormatted(rest, Outside, level', indent);
        StripWritten(c, rest, level', level', indent);
      } else if IsBlank(c) {
        StripFormatted(rest, Outside, level, indent);
      } else if c == '"' {
        StripFormatted(rest, Inside, level, indent);
        var t := Format(rest, Inside, level, indent).value;
        assert ([c] + t)[1..] == t;
      } else {
        StripFormatted(rest, Outside, level, indent);
        StripWritten(c, rest, level, level, indent);
      }
    }
  }

  /** The pieces written for one character outside strings. */
  lemma StripWritten(c: char, rest: string, level: int, padded: int, indent: int)
    requires c != '"' && !IsBlank(c) && Format(rest, Outside, level, indent).Some?
    ensures var t := Format(rest, Outside, level, indent).value;
            && Strip([c] + t, Outside) == [c] + Strip(t, Outside)
            && Strip([c] + " " + t, Outside) == [c] + Strip(t, Outside)
            && (Pad(padded * indent).Some? ==>
                  var pad := Pad(padded * indent).value;
                  && Strip([c] + "\n" + pad + t, Outside) == [c] + Strip(t, Outside)
                  && Strip("\n" + pad + [c] + t, Outside) == [c] + Strip(t, Outside))
  {
    var t := Format(rest, Outside, level, indent).value;
    StripPadded("", c, "", t);
    StripPadded("", c, " ", t);
    assert "" + [c] + "" + t == [c] + t && "" + [c] + " " + t == [c] + " " + t;
    PadBlank(padded * indent);
    if Pad(padded * indent).Some? {
      hide Format, Pad;
      var pad := Pad(padded * indent).value;
      StripLine(c, "\n" + pad, t);
      assert [c] + "\n" + pad + t == [c] + ("\n" + pad) + t;
    }
  }

  lemma StripLine(c: char, line: string, t: string)
    requires c != '"' && !IsBlank(c) && Blank(line)
    ensures Strip([c] + line + t, Outside) == [c] + Strip(t, Outside)
    ensures Strip(line + [c] + t, Outside) == [c] + Strip(t, Outside)
  {
    StripPadded("", c, line, t);
    StripPadded(line, c, "", t);
    hide *;
    assert "" + [c] + line + t == [c] + line + t && line + [c] + "" + t == line + [c] + t;
  }

  /** Formatting a formatted text changes nothing. */
  lemma FormatTwice(s: string, indent: int)
    requires Format(s, Outside, 0, indent).Some?
    ensures Format(Format(s, Outside, 0, indent).value, Outside, 0, indent) == Format(s, Outside, 0, indent)
  {
    var t := Format(s, Outside, 0, indent).value;
    StripFormatted(s, Outside, 0, indent);
    FormatStripped(s, Outside, 0, indent);
    FormatStripped(t, Outside, 0, indent);
  }

  /** Two texts that differ only in white space outside strings are formatted alike. */
  lemma FormatAlike(s: string, t: string, indent: int)
    requires Strip(s, Outside) == Strip(t, Outside)
    ensures Format(s, Outside, 0, indent) == Format(t, Outside, 0, indent)
  {
    FormatStripped(s, Outside, 0, indent);
    FormatStripped(t, Outside, 0, indent);
  }

  // --------------------------------------------------------------------- when it fails

  /** The brackets that lead away from level 0 in one direction, and those that lead back. */
  predicate Deepens(c: char, down: bool) {
    if down then Opens(c) else Closes(c)
  }

  /** No bracket outside strings leads back past level 0: going down, none closes one that is not
      open; going the other way, none opens one more than were closed. */
  predicate StaysOnSide(s: string, mode: Mode, depth: nat, down: bool)
    decreases |s|
  {
    s == "" ||
    if mode == Outside && Deepens(s[0], down) then StaysOnSide(s[1..], Outside, depth + 1, down)
    else if mode == Outside && Deepens(s[0], !down) then depth > 0 && StaysOnSide(s[1..], Outside, depth - 1, down)
    else StaysOnSide(s[1..], NextMode(mode, s[0]), depth, down)
  }

  function Level(depth: int, indent: int): int {
    if indent > 0 then depth else -depth
  }

  lemma PadAt(depth: int, indent: int)
    requires depth >= -1 && indent != 0
    ensures Pad(Level(depth, indent) * indent).Some? <==> depth >= 0
  {
    var level := Level(depth, indent);
    if depth == -1 {
      assert level * indent == if indent > 0 then -indent else indent;
    } else if indent > 0 {
      assert level * indent >= 0;
    } else {
      assert level * indent == depth * -indent >= 0;
    }
  }

  /** With an indentation that is not zero the formatter returns exactly on those texts. */
  lemma {:induction false} FormatReturns(s: string, mode: Mode, depth: nat, indent: int)
    requires indent != 0
    ensures Format(s, mode, Level(depth, indent), indent).Some? <==> StaysOnSide(s, mode, depth, indent > 0)
    decreases |s|
  {
    if s != "" {
      var c, rest, down := s[0], s[1..], indent > 0;
      PadAt(depth - 1, indent);
      PadAt(depth, indent);
      PadAt(depth + 1, indent);
      hide Pad;
      if mode == Outside && Deepens(c, down) {
        FormatReturns(rest, Outside, depth + 1, indent);
      } else if mode == Outside && Deepens(c, !down) {
        if depth > 0 {
          FormatReturns(rest, Outside, depth - 1, indent);
        }
      } else {
        FormatReturns(rest, NextMode(mode, c), depth, indent);
      }
    }
  }

  /** With the indentation zero it always returns. */
  lemma {:induction false} FormatReturnsFlat(s: string, mode: Mode, level: int)
    ensures Format(s, mode, level, 0).Some?
    decreases |s|
  {
    if s != "" {
      var c, rest := s[0], s[1..];
      var level' := if mode != Outside then level else if Opens(c) then level + 1 else if Closes(c) then level - 1 else level;
      FormatReturnsFlat(rest, NextMode(mode, c), level');
    }
  }

  // ------------------------------------------------------------- formatting printed values

  lemma PrefixTwice(p: string, q: string, o: Option<string>)
    ensures Prefix(p, Prefix(q, o)) == Prefix(p + q, o)
  {
    if o.Some? {
      assert p + (q + o.value) == p + q + o.value;
    }
  }

  /** Outside strings, a character that stands for nothing special is copied. */
  predicate Plain(c: char) {
    !Opens(c) && !Closes(c) && !IsBlank(c) && c != '"' && c != ',' && c != ':'
  }

  lemma {:induction false} FormatPlain(w: string, rest: string, level: int, indent: int)
    requires forall i :: 0 <= i < |w| ==> Plain(w[i])
    ensures Format(w + rest, Outside, level, indent) == Prefix(w, Format(rest, Outside, level, indent))
    decreases |w|
  {
    if w == "" {
      assert w + rest == rest;
      PrefixEmpty(Format(rest, Outside, level, indent));
    } else {
      assert Plain(w[0]) && (w + rest)[1..] == w[1..] + rest && (w + rest)[0] == w[0];
      FormatPlain(w[1..], rest, level, indent);
      PrefixTwice([w[0]], w[1..], Format(rest, Outside, level, indent));
      assert [w[0]] + w[1..] == w;
    }
  }

  lemma PrefixEmpty(o: Option<string>)
    ensures Prefix("", o) == o
  {
    if o.Some? {
      assert "" + o.value == o.value;
    }
  }

  /** Inside a string an escape is copied and does not end the string. */
  lemma FormatEscape(c: char, rest: string, level: int, indent: int)
    ensures Format(EscapeChar(c) + rest, Inside, level, indent) ==
            Prefix(EscapeChar(c), Format(rest, Inside, level, indent))
  {
    var e := EscapeChar(c);
    var o := Format(rest, Inside, level, indent);
    if |e| == 1 {
      assert (e + rest)[1..] == rest;
    } else {
      assert |e| == 2 || |e| == 6;
      FormatInside(e[1..], rest, level, indent);
      assert (e + rest)[1..] == e[1..] + rest && [e[0]] + e[1..] == e;
      PrefixTwice([e[0]], e[1..], o);
    }
  }

  /** What stands behind the backslash of an escape. */
  lemma FormatInside(w: string, rest: string, level: int, indent: int)
    requires w != "" && forall i :: 1 <= i < |w| ==> w[i] != '"' && w[i] != '\\'
    ensures Format(w + rest, Escaped, level, indent) == Prefix(w, Format(rest, Inside, level, indent))
  {
    assert (w + rest)[0] == w[0] && (w + rest)[1..] == w[1..] + rest;
    FormatUnquoted(w[1..], rest, level, indent);
    PrefixTwice([w[0]], w[1..], Format(rest, Inside, level, indent));
    assert [w[0]] + w[1..] == w;
  }

  lemma {:induction false} FormatUnquoted(w: string, rest: string, level: int, indent: int)
    requires forall i :: 0 <= i < |w| ==> w[i] != '"' && w[i] != '\\'
    ensures Format(w + rest, Inside, level, indent) == Prefix(w, Format(rest, Inside, level, indent))
    decreases |w|
  {
    if w == "" {
      assert w + rest == rest;
      PrefixEmpty(Format(rest, Inside, level, indent));
    } else {
      assert (w + rest)[0] == w[0] && (w + rest)[1..] == w[1..] + rest;
      FormatUnquoted(w[1..], rest, level, indent);
      PrefixTwice([w[0]], w[1..], Format(rest, Inside, level, indent));
      assert [w[0]] + w[1..] == w;
    }
  }

  lemma {:induction false} FormatEscaped(s: string, rest: string, level: int, indent: int)
    ensures Format(Escape(s) + "\"" + rest, Inside, level, indent) ==
            Prefix(Escape(s) + "\"", Format(rest, Outside, level, indent))
  {
    if s == "" {
      assert Escape(s) + "\"" + rest == "\"" + rest && ("\"" + rest)[1..] == rest;
      assert Escape(s) + "\"" == "\"";
    } else {
      var e, tail := EscapeChar(s[0]), Escape(s[1..]) + "\"";
      assert Escape(s) + "\"" + rest == e + (tail + rest);
      FormatEscape(s[0], tail + rest, level, indent);
      FormatEscaped(s[1..], rest, level, indent);
      PrefixTwice(e, tail, Format(rest, Outside, level, indent));
      assert e + tail == Escape(s) + "\"";
    }
  }

  lemma FormatQuoted(s: string, rest: string, level: int, indent: int)
    ensures Format(Quoted(s) + rest, Outside, level, indent) ==
            Prefix(Quoted(s), Format(rest, Outside, level, indent))
  {
    var q := Escape(s) + "\"";
    assert Quoted(s) + rest == "\"" + (q + rest) && ("\"" + (q + rest))[1..] == q + rest;
    FormatEscaped(s, rest, level, indent);
    PrefixTwice("\"", q, Format(rest, Outside, level, indent));
    assert "\"" + q == Quoted(s);
  }

  /** The formatter's output for one bracket, comma or colon. */
  lemma FormatMark(c: char, rest: string, level: nat, indent: nat)
    ensures Opens(c) ==>
              Format([c] + rest, Outside, level, indent) ==
              Prefix([c] + LineBreak(Indented(level + 1, indent)), Format(rest, Outside, level + 1, indent))
    ensures Closes(c) ==>
              Format([c] + rest, Outside, level + 1, indent) ==
              Prefix(LineBreak(Indented(level, indent)) + [c], Format(rest, Outside, level, indent))
    ensures c == ',' ==>
              Format([c] + rest, Outside, level, indent) ==
              Prefix([c] + LineBreak(Indented(level, indent)), Format(rest, Outside, level, indent))
    ensures c == ':' ==>
              Format([c] + rest, Outside, level, indent) == Prefix([c] + " ", Format(rest, Outside, level, indent))
  {
    assert ([c] + rest)[0] == c && ([c] + rest)[1..] == rest;
    var pad, pad1 := Blanks(level * indent), Blanks((level + 1) * indent);
    assert Pad(level * indent) == Some(pad) && Pad((level + 1) * indent) == Some(pad1);
    assert [c] + "\n" + pad == [c] + ("\n" + pad) && [c] + "\n" + pad1 == [c] + ("\n" + pad1);
  }

  /** Formatting compact text lays it out with one element to a line. */
  lemma {:induction false} FormatPrinted(v: Value, rest: string, level: nat, indent: nat)
    ensures Format(Print(v, Compact) + rest, Outside, level, indent) ==
            Prefix(Print(v, Indented(level, indent)), Format(rest, Outside, level, indent))
    decreases v
  {
    hide Format;
    var sp := Indented(level, indent);
    match v
    case Null => FormatScalar(v, rest, level, indent);
    case Bool(_) => FormatScalar(v, rest, level, indent);
    case Number(_) => FormatScalar(v, rest, level, indent);
    case Fraction(_) => FormatScalar(v, rest, level, indent);
    case String(s) => FormatQuoted(s, rest, level, indent);
    case Array(vs) =>
      FormatElements(vs, "]" + rest, level, indent);
      hide PrintElements;
      FormatNested('[', PrintElements(vs, Compact), PrintElements(vs, sp), ']', rest, level, indent);
    case Object(ms) =>
      FormatMembers(ms, "}" + rest, level + 1, indent);
      hide PrintMembers;
      FormatNested('{', PrintMembers(ms, "", "", Compact),
                   PrintMembers(ms, LineBreak(Inner(sp)), " ", Inner(sp)), '}', rest, level, indent);
  }

  lemma FormatScalar(v: Value, rest: string, level: nat, indent: nat)
    requires v.Null? || v.Bool? || v.Number? || v.Fraction?
    ensures Format(Print(v, Compact) + rest, Outside, level, indent) ==
            Prefix(Print(v, Indented(level, indent)), Format(rest, Outside, level, indent))
  {
    if v.Number? {
      DigitsShape(if v.n < 0 then -v.n else v.n);
    } else if v.Fraction? {
      FractionIsPlain(v.numeral);
    }
    hide Format, Digits;
    FormatPlain(Print(v, Compact), rest, level, indent);
  }

  lemma FractionIsPlain(w: Fractional)
    ensures forall i :: 0 <= i < |w| ==> Plain(w[i])
  {
    var w' := NumberAhead(w, "");
    assert w' + "" == w';
    assert forall i :: 0 <= i < |w| ==> NumberChar(w[i]);
  }

  /** Brackets around text that is formatted to `formatted`. */
  lemma FormatNested(open: char, text: string, formatted: string, close: char, rest: string, level: nat, indent: nat)
    requires Opens(open) && Closes(close)
    requires Format(text + ([close] + rest), Outside, level + 1, indent) ==
             Prefix(formatted, Format([close] + rest, Outside, level + 1, indent))
    ensures Format([open] + "" + text + "" + [close] + rest, Outside, level, indent) ==
            Prefix([open] + LineBreak(Indented(level + 1, indent)) + formatted + LineBreak(Indented(level, indent)) + [close],
                   Format(rest, Outside, level, indent))
  {
    var o := Format(rest, Outside, level, indent);
    var down, up := LineBreak(Indented(level + 1, indent)), LineBreak(Indented(level, indent));
    FormatMark(open, text + ([close] + rest), level, indent);
    FormatMark(close, rest, level, indent);
    hide *;
    CompactBrackets([open], text, [close], rest);
    PrefixTwice(formatted, up + [close], o);
    PrefixTwice([open] + down, formatted + (up + [close]), o);
    Regroup([open] + down, formatted, up, [close]);
  }

  lemma {:induction false} FormatElements(vs: seq<Value>, rest: string, level: nat, indent: nat)
    ensures Format(PrintElements(vs, Compact) + rest, Outside, level + 1, indent) ==
            Prefix(PrintElements(vs, Indented(level, indent)), Format(rest, Outside, level + 1, indent))
    decreases vs
  {
    var sp, o := Indented(level, indent), Format(rest, Outside, level + 1, indent);
    if vs == [] {
      assert PrintElements(vs, Compact) + rest == rest;
      PrefixEmpty(o);
    } else if |vs| == 1 {
      FormatPrinted(vs[0], rest, level + 1, indent);
    } else {
      var p, p' := Print(vs[0], Compact), Print(vs[0], Inner(sp));
      var more, more' := PrintElements(vs[1..], Compact), PrintElements(vs[1..], sp);
      FormatPrinted(vs[0], "," + (more + rest), level + 1, indent);
      FormatElements(vs[1..], rest, level, indent);
      ElementsText(vs, sp, rest);
      hide Format, Print, PrintElements, LineBreak;
      FormatAfterComma(p', more, more', rest, level + 1, indent);
    }
  }

  lemma ElementsText(vs: seq<Value>, sp: Spacing, rest: string)
    requires |vs| >= 2
    ensures PrintElements(vs, sp) == Print(vs[0], Inner(sp)) + "," + LineBreak(Inner(sp)) + PrintElements(vs[1..], sp)
    ensures PrintElements(vs, Compact) + rest == Print(vs[0], Compact) + ("," + (PrintElements(vs[1..], Compact) + rest))
  {
    var p, more := Print(vs[0], Compact), PrintElements(vs[1..], Compact);
    assert PrintElements(vs, Compact) == p + "," + "" + more;
    hide *;
    CompactComma(p, more, rest);
  }

  lemma CompactComma(p: string, more: string, rest: string)
    ensures p + "," + "" + more + rest == p + ("," + (more + rest))
  {
  }

  lemma CompactBrackets(open: string, text: string, close: string, rest: string)
    ensures open + "" + text + "" + close + rest == open + (text + (close + rest))
  {
  }

  lemma FormatAfterComma(p: string, more: string, more': string, rest: string, level: nat, indent: nat)
    requires Format(more + rest, Outside, level, indent) == Prefix(more', Format(rest, Outside, level, indent))
    ensures Prefix(p, Format("," + (more + rest), Outside, level, indent)) ==
            Prefix(p + "," + LineBreak(Indented(level, indent)) + more', Format(rest, Outside, level, indent))
  {
    var o, c := Format(rest, Outside, level, indent), "," + LineBreak(Indented(level, indent));
    FormatMark(',', more + rest, level, indent);
    PrefixTwice(c, more', o);
    PrefixTwice(p, c + more', o);
    assert p + (c + more') == p + "," + LineBreak(Indented(level, indent)) + more';
  }

  lemma {:induction false} FormatMembers(ms: seq<Member>, rest: string, level: nat, indent: nat)
    ensures var sp := Indented(level, indent);
            Format(PrintMembers(ms, "", "", Compact) + rest, Outside, level, indent) ==
            Prefix(PrintMembers(ms, LineBreak(sp), " ", sp), Format(rest, Outside, level, indent))
    decreases ms
  {
    var sp, o := Indented(level, indent), Format(rest, Outside, level, indent);
    if ms == [] {
      assert PrintMembers(ms, "", "", Compact) + rest == rest;
      PrefixEmpty(o);
    } else {
      var m, more, more' := ms[0], PrintMembers(ms[1..], "", "", Compact), PrintMembers(ms[1..], LineBreak(sp), " ", sp);
      var behind := if |ms| == 1 then rest else "," + (more + rest);
      FormatPrinted(m.value, behind, level, indent);
      CompactText(ms, rest, behind);
      if |ms| == 1 {
        hide Format, Print, Quoted;
        FormatMember(m, behind, level, indent);
      } else {
        FormatMembers(ms[1..], rest, level, indent);
        var head := Quoted(m.key) + ":" + " " + Print(m.value, sp);
        assert PrintMembers(ms, LineBreak(sp), " ", sp) == head + "," + LineBreak(sp) + more';
        hide Format, Print, PrintMembers, Quoted, LineBreak;
        FormatMember(m, behind, level, indent);
        FormatAfterComma(head, more, more', rest, level, indent);
      }
    }
  }

  lemma CompactText(ms: seq<Member>, rest: string, behind: string)
    requires ms != []
    requires behind == if |ms| == 1 then rest else "," + (PrintMembers(ms[1..], "", "", Compact) + rest)
    ensures PrintMembers(ms, "", "", Compact) + rest ==
            Quoted(ms[0].key) + (":" + (Print(ms[0].value, Compact) + behind))
  {
    var q, p := Quoted(ms[0].key), Print(ms[0].value, Compact);
    if |ms| == 1 {
      assert PrintMembers(ms, "", "", Compact) == q + ":" + "" + p;
      hide *;
      OneMember(q, p, rest);
    } else {
      var more := PrintMembers(ms[1..], "", "", Compact);
      assert PrintMembers(ms, "", "", Compact) == q + ":" + "" + p + "," + "" + more;
      hide *;
      FirstMember(q, p, more, rest);
    }
  }

  lemma OneMember(q: string, p: string, rest: string)
    ensures q + ":" + "" + p + rest == q + (":" + (p + rest))
  {
  }

  lemma FirstMember(q: string, p: string, more: string, rest: string)
    ensures q + ":" + "" + p + "," + "" + more + rest == q + (":" + (p + ("," + (more + rest))))
  {
    OneMember(q, p, "," + more + rest);
  }

  lemma FormatMember(m: Member, behind: string, level: nat, indent: nat)
    requires Format(Print(m.value, Compact) + behind, Outside, level, indent) ==
             Prefix(Print(m.value, Indented(level, indent)), Format(behind, Outside, level, indent))
    ensures Format(Quoted(m.key) + (":" + (Print(m.value, Compact) + behind)), Outside, level, indent) ==
            Prefix(Quoted(m.key) + ":" + " " + Print(m.value, Indented(level, indent)), Format(behind, Outside, level, indent))
  {
    hide Format, Print, Quoted;
    var p, p', o := Print(m.value, Compact), Print(m.value, Indented(level, indent)), Format(behind, Outside, level, indent);
    var q := Quoted(m.key);
    FormatQuoted(m.key, ":" + (p + behind), level, indent);
    FormatMark(':', p + behind, level, indent);
    PrefixTwice(":" + " ", p', o);
    PrefixTwice(q, ":" + " " + p', o);
    assert q + (":" + " " + p') == q + ":" + " " + p';
  }

  /** Formatting compact text keeps its meaning. */
  lemma FormatKeepsMeaning(v: Value, indent: nat)
    ensures Format(Print(v, Compact), Outside, 0, indent) == Some(Print(v, Indented(0, indent)))
    ensures ReadText(Print(v, Indented(0, indent))) == Some(v)
  {
    FormatPrinted(v, "", 0, indent);
    assert Print(v, Compact) + "" == Print(v, Compact);
    assert Print(v, Indented(0, indent)) + "" == Print(v, Indented(0, indent));
    ReadTextPrinted(v, Indented(0, indent));
  }

  // ------------------------------------------------------------------------ the formatter

  /** The loop; no result when a padding would have a negative length. */
  method FormatJson(text: string, indent: int) returns (r: Option<string>)
    ensures r == Format(text, Outside, 0, indent)
  {
    var formatted, level, inString, escaped := "", 0, false, false;
    var i := 0;
    assert text[0..] == text;
    PrefixEmpty(Format(text, Outside, 0, indent));
    while i < |text|
      invariant 0 <= i <= |text| && (escaped ==> inString)
      invariant Format(text, Outside, 0, indent) ==
                Prefix(formatted, Format(text[i..], ModeOf(inString, escaped), level, indent))
    {
      var c := text[i];
      ghost var rest := text[i + 1..];
      assert text[i..][0] == c && text[i..][1..] == rest;
      ghost var was := formatted;
      i := i + 1;
      if inString {
        formatted := formatted + [c];
        if escaped {
          escaped := false;
        } else if c == '\\' {
          escaped := true;
        } else if c == '"' {
          inString := false;
        }
      } else if c == '"' {
        formatted := formatted + [c];
        inString := true;
      } else if c == '{' || c == '[' {
        level := level + 1;
        var pad := Pad(level * indent);
        if pad.None? {
          return None;
        }
        formatted := formatted + ([c] + "\n" + pad.value);
      } else if c == '}' || c == ']' {
        level := level - 1;
        var pad := Pad(level * indent);
        if pad.None? {
          return None;
        }
        formatted := formatted + ("\n" + pad.value + [c]);
      } else if c == ',' {
        var pad := Pad(level * indent);
        if pad.None? {
          return None;
        }
        formatted := formatted + ([c] + "\n" + pad.value);
      } else if c == ':' {
        formatted := formatted + ([c] + " ");
      } else if c == ' ' || c == '\t' || c == '\n' || c == '\r' {
      } else {
        formatted := formatted + [c];
      }
      PrefixTwice(was, formatted[|was|..], Format(rest, ModeOf(inString, escaped), level, indent));
      PrefixEmpty(Format(rest, ModeOf(inString, escaped), level, indent));
    }
    assert formatted + "" == formatted;
    r := Some(formatted);
  }

  function ModeOf(inString: bool, escaped: bool): Mode {
    if escaped then Escaped else if inString then Inside else Outside
  }
}
