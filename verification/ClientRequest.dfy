/** Requests as clients write them, and what the session and the parser make of their parts. */
module ClientRequest {
  import opened Wrappers
  import opened Sequences
  import opened Text
  import opened Decimal
  import opened Session
  import opened Request
  import opened Framing

  /** A header field, with the white space in front of its value. */
  datatype Field = Field(name: string, pad: string, value: string)

  /** The words of the first line and the white space between them, the header fields and the body. */
  datatype Client = Client(words: seq<string>, gap: string, fields: seq<Field>, body: string)

  /** White space on one line. */
  predicate IsGap(s: string) {
    forall i :: 0 <= i < |s| ==> s[i] == ' ' || s[i] == '\t' || s[i] == 11 as char || s[i] == 12 as char
  }

  predicate IsEol(eol: string) {
    eol == "\r\n" || eol == "\n"
  }

  predicate IsWord(w: string) {
    w != "" && forall i :: 0 <= i < |w| ==> w[i] != ' ' && !(9 as char <= w[i] <= 13 as char)
  }

  predicate OnOneLine(s: string) {
    forall i :: 0 <= i < |s| ==> s[i] != '\n' && s[i] != '\r'
  }

  /** A value on one line that does not begin with white space. */
  predicate IsField(f: Field) {
    && OnOneLine(f.name) && IsGap(f.pad) && OnOneLine(f.value) && ':' !in f.name
    && (f.value != "" ==> f.value[0] != ' ' && !(9 as char <= f.value[0] <= 13 as char))
  }

  predicate Writes(c: Client) {
    && (forall w :: w in c.words ==> IsWord(w)) && c.gap != "" && IsGap(c.gap)
    && (forall f :: f in c.fields ==> IsField(f))
  }

  function Spaced(words: seq<string>, gap: string): string {
    if words == [] then "" else if |words| == 1 then words[0] else words[0] + gap + Spaced(words[1..], gap)
  }

  function FieldLine(f: Field): string {
    f.name + ":" + f.pad + f.value
  }

  function FieldLines(fields: seq<Field>, eol: string): string {
    if fields == [] then "" else FieldLine(fields[0]) + eol + FieldLines(fields[1..], eol)
  }

  /** The bytes of a request. */
  function Written(c: Client, eol: string): string {
    Spaced(c.words, c.gap) + eol + (FieldLines(c.fields, eol) + (eol + c.body))
  }

  /** The word at a place of the first line, if there is one. */
  function WordAt(words: seq<string>, i: nat): string {
    if i < |words| then words[i] else ""
  }

  /** The last field of every name. */
  function FieldMap(fields: seq<Field>, m: map<string, string>): map<string, string> {
    if fields == [] then m else FieldMap(fields[1..], m[fields[0].name := fields[0].value])
  }

  // ------------------------------------------------------------------------------------- lines

  /** A line, its end, and what is behind them. */
  lemma LineRead(s: string, pos: nat, line: string, eol: string, rest: string)
    requires pos <= |s| && s[pos..] == line + eol + rest && OnOneLine(line) && IsEol(eol)
    ensures var next := pos + |line| + |eol|;
            && next <= |s| && s[next..] == rest
            && GetLine(s, pos).Some? && DropReturn(GetLine(s, pos).value.0) == line && GetLine(s, pos).value.1 == next
  {
    var t := line + eol;
    LineChars(s, pos, line, eol, rest);
    var n := pos + |t| - 1;
    assert s[pos..n] == t[..|t| - 1] && s[n + 1..] == rest;
    WithoutReturn(line);
    hide FindChar, OnOneLine;
    assert t[..|t| - 1] == if |eol| == 2 then line + "\r" else line;
  }

  lemma LineChars(s: string, pos: nat, line: string, eol: string, rest: string)
    requires pos <= |s| && s[pos..] == line + eol + rest && OnOneLine(line) && IsEol(eol)
    ensures var t := line + eol; var n := pos + |t| - 1;
            && n < |s| && FindChar(s, '\n', pos) == Some(n) && s[pos..n] == t[..|t| - 1] && s[n + 1..] == rest
  {
    var t := line + eol;
    var n := pos + |t| - 1;
    assert forall i :: 0 <= i < |t| ==> s[pos + i] == s[pos..][i] == t[i];
    assert forall i :: 0 <= i < |line| ==> t[i] == line[i];
    assert t[|t| - 1] == '\n' && (|eol| == 2 ==> t[|line|] == '\r');
    FindCharIs(s, '\n', pos, n);
    hide FindChar;
    assert s[n + 1..] == s[pos..][|t|..];
  }

  lemma WithoutReturn(line: string)
    requires OnOneLine(line)
    ensures DropReturn(line) == line && DropReturn(line + "\r") == line
  {
    assert (line + "\r")[..|line|] == line;
  }

  // ---------------------------------------------------------------------------- the first line

  lemma {:induction false} TakeWhole(w: string, rest: string)
    requires forall i :: 0 <= i < |w| ==> !IsSpace(w[i])
    requires rest != "" ==> IsSpace(rest[0])
    ensures TakeWord(w + rest) == w
    decreases |w|
  {
    if w == "" {
      assert w + rest == rest;
    } else {
      assert (w + rest)[0] == w[0] && (w + rest)[1..] == w[1..] + rest;
      TakeWhole(w[1..], rest);
      assert [w[0]] + w[1..] == w;
    }
  }

  lemma {:induction false} GapSkipped(gap: string, t: string)
    requires IsGap(gap) && (t != "" ==> !IsSpace(t[0]))
    ensures SkipSpace(gap + t) == t
    decreases |gap|
  {
    if gap == "" {
      assert gap + t == t;
    } else {
      assert (gap + t)[0] == gap[0] && (gap + t)[1..] == gap[1..] + t;
      GapSkipped(gap[1..], t);
    }
  }

  /** The white space in front of the remaining words. */
  function Lead(words: seq<string>, gap: string): string {
    if words == [] then "" else gap + Spaced(words, gap)
  }

  lemma SpacedParts(words: seq<string>, gap: string)
    requires words != []
    ensures Spaced(words, gap) == words[0] + Lead(words[1..], gap)
  {
    if |words| == 1 {
      assert words[0] + "" == words[0];
    } else {
      Regroup(words[0], gap, Spaced(words[1..], gap), "");
    }
  }

  lemma NextIs(words: seq<string>, before: string, gap: string)
    requires words != [] && IsWord(words[0]) && IsGap(before) && gap != "" && IsGap(gap)
    ensures NextWord(before + Spaced(words, gap)) == (words[0], Lead(words[1..], gap))
  {
    var w, rest := words[0], Lead(words[1..], gap);
    SpacedParts(words, gap);
    assert rest != "" ==> rest[0] == gap[0] && IsSpace(rest[0]);
    TakeWhole(w, rest);
    var t := w + rest;
    assert t[0] == w[0] && t[|w|..] == rest;
    GapSkipped(before, t);
    hide Spaced, Lead, IsGap;
  }

  lemma NoWordLeft()
    ensures NextWord("") == ("", "")
  {
  }

  lemma NextOrNothing(words: seq<string>, gap: string)
    requires (forall w :: w in words ==> IsWord(w)) && gap != "" && IsGap(gap)
    ensures NextWord(Lead(words, gap)) == (WordAt(words, 0), if words == [] then "" else Lead(words[1..], gap))
  {
    if words == [] {
      NoWordLeft();
    } else {
      assert words[0] in words;
      NextIs(words, gap, gap);
    }
  }

  /** The first three words of a first line, where it has them. */
  lemma ThreeWords(words: seq<string>, gap: string)
    requires (forall w :: w in words ==> IsWord(w)) && gap != "" && IsGap(gap)
    ensures var (m, rest) := NextWord(Spaced(words, gap));
            var (u, rest') := NextWord(rest);
            m == WordAt(words, 0) && u == WordAt(words, 1) && NextWord(rest').0 == WordAt(words, 2)
  {
    NoWordLeft();
    if words != [] {
      assert words[0] in words;
      NextIs(words, "", gap);
      assert "" + Spaced(words, gap) == Spaced(words, gap);
      var ws := words[1..];
      assert forall w :: w in ws ==> w in words;
      NextOrNothing(ws, gap);
      if ws != [] {
        assert forall w :: w in ws[1..] ==> w in ws;
        NextOrNothing(ws[1..], gap);
      }
      hide NextWord, IsWord;
    }
  }

  lemma {:induction false} SpacedOnOneLine(words: seq<string>, gap: string)
    requires (forall w :: w in words ==> IsWord(w)) && IsGap(gap)
    ensures OnOneLine(Spaced(words, gap))
    decreases |words|
  {
    if words != [] {
      assert IsWord(words[0]);
      if |words| > 1 {
        assert forall w :: w in words[1..] ==> w in words;
        SpacedOnOneLine(words[1..], gap);
      }
    }
  }

  /** What the parser reads on the first line, and where the next one begins. */
  lemma FirstLineRead(c: Client, eol: string)
    requires Writes(c) && IsEol(eol)
    ensures var s := Written(c, eol); var next := |Spaced(c.words, c.gap)| + |eol|;
            && RequestLine(s) == (WordAt(c.words, 0), WordAt(c.words, 1), WordAt(c.words, 2))
            && AfterFirstLine(s) == next <= |s| && s[next..] == FieldLines(c.fields, eol) + (eol + c.body)
  {
    var s, line := Written(c, eol), Spaced(c.words, c.gap);
    SpacedOnOneLine(c.words, c.gap);
    ThreeWords(c.words, c.gap);
    assert s[0..] == s;
    hide NextWord, Spaced, FieldLines, OnOneLine, DropReturn;
    LineRead(s, 0, line, eol, FieldLines(c.fields, eol) + (eol + c.body));
    hide GetLine;
  }

  // ------------------------------------------------------------------------- the header fields

  lemma FieldAdded(f: Field, m: map<string, string>)
    requires IsField(f)
    ensures FieldLine(f) != "" && OnOneLine(FieldLine(f)) && AddHeader(m, FieldLine(f)) == m[f.name := f.value]
  {
    var line, n := FieldLine(f), |f.name|;
    assert forall i :: 0 <= i < n ==> line[i] == f.name[i];
    assert line[n] == ':';
    FindCharIs(line, ':', 0, n);
    assert line[..n] == f.name && line[n + 1..] == f.pad + f.value;
    GapSkipped(f.pad, f.value);
    assert OnOneLine(f.pad) && OnOneLine(line);
    hide FindChar;
  }

  /** The header loop reads every field, in order, and stops at the blank line. */
  lemma {:induction false} FieldsRead(s: string, pos: nat, fields: seq<Field>, eol: string, body: string, m: map<string, string>)
    requires pos <= |s| && s[pos..] == FieldLines(fields, eol) + (eol + body) && IsEol(eol)
    requires forall f :: f in fields ==> IsField(f)
    ensures ReadHeaders(s, pos, m).0 == FieldMap(fields, m) && s[ReadHeaders(s, pos, m).1..] == body
    decreases |fields|
  {
    if fields == [] {
      assert "" + (eol + body) == "" + eol + body;
      LineRead(s, pos, "", eol, body);
      hide GetLine, DropReturn;
    } else {
      var f, more := fields[0], FieldLines(fields[1..], eol) + (eol + body);
      assert f in fields && forall g :: g in fields[1..] ==> g in fields;
      FieldAdded(f, m);
      Regroup(FieldLine(f) + eol, FieldLines(fields[1..], eol), eol + body, "");
      hide GetLine, DropReturn, AddHeader, IsField, FieldLine, OnOneLine;
      LineRead(s, pos, FieldLine(f), eol, more);
      FieldsRead(s, GetLine(s, pos).value.1, fields[1..], eol, body, m[f.name := f.value]);
    }
  }

  /** What the parser makes of a request: its words, its fields and its body, less one trailing line
      feed. */
  lemma ParsedAsWritten(r: Request, c: Client, eol: string)
    requires Writes(c) && IsEol(eol) && r.raw == Written(c, eol) && r.Parsed()
    ensures r.method_ == WordAt(c.words, 0) && r.uri == WordAt(c.words, 1) && r.version == WordAt(c.words, 2)
    ensures r.headers == FieldMap(c.fields, map[])
    ensures r.body == if c.body != "" && c.body[|c.body| - 1] == '\n' then c.body[..|c.body| - 1] else c.body
  {
    FirstLineRead(c, eol);
    var s := r.raw;
    BodyText(s);
    hide RequestLine, Body, ReadHeaders, AfterFirstLine, Written;
    FieldsRead(s, AfterFirstLine(s), c.fields, eol, c.body, map[]);
  }

  /** A field is found under its name when no later one has the same. */
  lemma {:induction false} FieldFound(fields: seq<Field>, k: nat, m: map<string, string>)
    requires k < |fields| && forall i :: k < i < |fields| ==> fields[i].name != fields[k].name
    ensures fields[k].name in FieldMap(fields, m) && FieldMap(fields, m)[fields[k].name] == fields[k].value
    decreases |fields|
  {
    var f, rest := fields[0], fields[1..];
    if k > 0 {
      FieldFound(rest, k - 1, m[f.name := f.value]);
    } else {
      FieldKept(rest, f.name, m[f.name := f.value]);
    }
  }

  lemma {:induction false} FieldKept(fields: seq<Field>, name: string, m: map<string, string>)
    requires forall i :: 0 <= i < |fields| ==> fields[i].name != name
    ensures name in FieldMap(fields, m) <==> name in m
    ensures name in m ==> FieldMap(fields, m)[name] == m[name]
    decreases |fields|
  {
    if fields != [] {
      FieldKept(fields[1..], name, m[fields[0].name := fields[0].value]);
    }
  }

  // ------------------------------------------------------------------------ what is handed over

  /** A number, as a text begins with it. */
  lemma {:induction false} DigitsAreRead(s: string, value: nat)
    ensures DigitsValue(s, value) == ReadDigits(s, value).0
    decreases |s|
  {
    if s != "" && '0' <= s[0] <= '9' {
      DigitsAreRead(s[1..], 10 * value + DigitValue(s[0]));
    }
  }

  /** The conversion reads a numeral behind white space and in front of anything but a digit. */
  lemma {:induction false} StoulReads(w: string, n: nat, rest: string)
    requires forall i :: 0 <= i < |w| ==> w[i] == ' ' || 9 as char <= w[i] <= 13 as char
    requires rest != "" ==> !('0' <= rest[0] <= '9')
    ensures Stoul(w + Digits(n) + rest) == if n < TWO_TO_THE_64 then Some(n) else None
    decreases |w|
  {
    var s := w + Digits(n) + rest;
    if w == "" {
      DigitsShape(n);
      var t := Digits(n) + rest;
      assert s == t && t[0] == Digits(n)[0];
      ReadWritten(n, rest);
      DigitsAreRead(t, 0);
      assert ReadDigits(rest, n) == (n, rest);
      hide Digits, ReadDigits, DigitsValue;
    } else {
      assert s[0] == w[0] && s[1..] == w[1..] + Digits(n) + rest;
      StoulReads(w[1..], n, rest);
    }
  }

  /** The lines of the header block: no blank one, and none that begins with a carriage return. */
  predicate Steady(s: string) {
    forall i :: 0 <= i < |s| - 1 && s[i] == '\n' ==> s[i + 1] != '\n' && s[i + 1] != '\r'
  }

  lemma SteadyJoin(a: string, b: string)
    requires Steady(a) && Steady(b) && (b != "" ==> b[0] != '\n' && b[0] != '\r')
    ensures Steady(a + b)
  {
    var s := a + b;
    forall i | 0 <= i < |s| - 1 && s[i] == '\n'
      ensures s[i + 1] != '\n' && s[i + 1] != '\r'
    {
      assert i < |a| ==> s[i] == a[i];
      assert i + 1 < |a| ==> s[i + 1] == a[i + 1];
      assert i >= |a| ==> s[i] == b[i - |a|] && s[i + 1] == b[i + 1 - |a|];
      assert i + 1 == |a| ==> s[i + 1] == b[0];
    }
  }

  lemma LineIsSteady(line: string, eol: string)
    requires IsEol(eol)
    requires OnOneLine(line)
    ensures Steady(line) && Steady(line + eol)
  {
  }

  lemma {:induction false} LinesAreSteady(fields: seq<Field>, eol: string)
    requires IsEol(eol)
    requires forall f :: f in fields ==> IsField(f)
    ensures Steady(FieldLines(fields, eol))
    ensures var t := FieldLines(fields, eol);
            fields != [] ==> EndsLine(t, eol) && t[0] != '\n' && t[0] != '\r'
    decreases |fields|
  {
    if fields != [] {
      var f, more := fields[0], FieldLines(fields[1..], eol);
      assert f in fields && forall g :: g in fields[1..] ==> g in fields;
      LinesAreSteady(fields[1..], eol);
      FieldAdded(f, map[]);
      LineIsSteady(FieldLine(f), eol);
      SteadyJoin(FieldLine(f) + eol, more);
      hide Steady, IsField, FieldLine, FieldLines;
      LastOfLines(FieldLine(f), more, eol);
    }
  }

  lemma LastOfLines(line: string, more: string, eol: string)
    requires IsEol(eol)
    requires line != "" && OnOneLine(line)
    requires more != "" ==> EndsLine(more, eol)
    ensures var t := line + eol + more;
            EndsLine(t, eol) && t[0] != '\n' && t[0] != '\r'
  {
    var t := line + eol + more;
    assert t[0] == line[0];
    if more == "" {
      assert t == line + eol;
      assert t[|t| - |eol| - 1] == line[|line| - 1];
    } else {
      assert t[|t| - |eol|..] == more[|more| - |eol|..];
      assert t[|t| - |eol| - 1] == more[|more| - |eol| - 1];
    }
  }

  lemma {:induction false} FieldLinesJoin(a: seq<Field>, b: seq<Field>, eol: string)
    ensures FieldLines(a + b, eol) == FieldLines(a, eol) + FieldLines(b, eol)
    decreases |a|
  {
    if a == [] {
      assert a + b == b;
    } else {
      assert (a + b)[1..] == a[1..] + b;
      FieldLinesJoin(a[1..], b, eol);
      Regroup(FieldLine(a[0]) + eol, FieldLines(a[1..], eol), FieldLines(b, eol), "");
    }
  }

  /** A text whose last line ends, and is not empty. */
  predicate EndsLine(t: string, eol: string) {
    |t| > |eol| && t[|t| - |eol|..] == eol && t[|t| - |eol| - 1] != '\n'
  }

  /** The length is announced in the field at `k`, which is not the last; the key does not stand before. */
  predicate Announces(c: Client, k: nat, eol: string) {
    && k + 1 < |c.fields| && c.fields[k] == Field("Content-Length", " ", Digits(|c.body|))
    && !Contains(Spaced(c.words, c.gap) + eol + FieldLines(c.fields[..k], eol), "Content-Length:")
  }

  /** There is no body, and nothing announces one. */
  predicate AnnouncesNothing(c: Client, eol: string) {
    var lines := Spaced(c.words, c.gap) + eol + FieldLines(c.fields, eol);
    c.body == "" && !Contains(lines, "Content-Length:") && !Contains(lines, "content-length:")
  }

  predicate IsMethod(m: string) {
    m == "GET" || m == "POST" || m == "PUT" || m == "DELETE"
  }

  /** The header block in three parts: what is before the length, the length, and what is behind it. */
  lemma HeadParts(c: Client, k: nat, eol: string) returns (before: string, behind: string)
    requires IsEol(eol)
    requires Writes(c) && |c.words| >= 2 && Announces(c, k, eol)
    ensures before == Spaced(c.words, c.gap) + eol + FieldLines(c.fields[..k], eol) && before[|before| - 1] == '\n'
    ensures var line := "Content-Length: " + Digits(|c.body|) + eol;
            Written(c, eol) == before + line + behind + (eol + eol) + c.body
    ensures behind != "" && behind[0] != '\n' && behind[0] != '\r' && behind[|behind| - 1] != '\n'
    ensures Steady(before) && Steady(behind)
  {
    var front, rest := c.fields[..k], c.fields[k + 1..];
    before := Spaced(c.words, c.gap) + eol + FieldLines(front, eol);
    var t := FieldLines(rest, eol);
    PartsAreSteady(c, front, rest, eol);
    behind := t[..|t| - |eol|];
    FieldParts(c, k, eol);
    hide FieldLines, Spaced, Writes, Announces, Digits, Steady;
    CutLine(t, behind, eol);
    HeadRegroup(Spaced(c.words, c.gap), FieldLines(front, eol), "Content-Length: " + Digits(|c.body|) + eol, behind, c.body, eol);
  }

  lemma PartsAreSteady(c: Client, front: seq<Field>, rest: seq<Field>, eol: string)
    requires IsEol(eol)
    requires Writes(c) && rest != []
    requires forall f :: f in front || f in rest ==> f in c.fields
    ensures var before := Spaced(c.words, c.gap) + eol + FieldLines(front, eol);
            Steady(before) && before != "" && before[|before| - 1] == '\n'
    ensures var t := FieldLines(rest, eol);
            Steady(t) && EndsLine(t, eol) && t[0] != '\n' && t[0] != '\r'
  {
    LinesAreSteady(front, eol);
    LinesAreSteady(rest, eol);
    SpacedOnOneLine(c.words, c.gap);
    LineIsSteady(Spaced(c.words, c.gap), eol);
    hide Spaced, FieldLines, IsField, IsWord, Steady;
    SteadyJoin(Spaced(c.words, c.gap) + eol, FieldLines(front, eol));
    LastIsFeed(Spaced(c.words, c.gap), FieldLines(front, eol), eol);
  }

  /** The field lines in three parts. */
  lemma FieldParts(c: Client, k: nat, eol: string)
    requires IsEol(eol)
    requires k < |c.fields| && c.fields[k] == Field("Content-Length", " ", Digits(|c.body|))
    ensures FieldLines(c.fields, eol) ==
            FieldLines(c.fields[..k], eol) + ("Content-Length: " + Digits(|c.body|) + eol + FieldLines(c.fields[k + 1..], eol))
  {
    var front, f, rest := c.fields[..k], c.fields[k], c.fields[k + 1..];
    assert c.fields == front + ([f] + rest);
    LengthLine(f, |c.body|, eol);
    FieldLinesJoin(front, [f] + rest, eol);
    FieldLinesJoin([f], rest, eol);
    hide FieldLines, Digits;
  }

  lemma LengthLine(f: Field, n: nat, eol: string)
    requires IsEol(eol)
    requires f == Field("Content-Length", " ", Digits(n))
    ensures FieldLines([f], eol) == "Content-Length: " + Digits(n) + eol
  {
    assert [f][1..] == [];
    var line := "Content-Length" + ":" + " " + Digits(n);
    assert line + eol + "" == line + eol && "Content-Length" + ":" + " " == "Content-Length: ";
  }

  lemma CutLine(t: string, behind: string, eol: string)
    requires IsEol(eol)
    requires EndsLine(t, eol) && Steady(t) && behind == t[..|t| - |eol|]
    ensures t == behind + eol && Steady(behind) && behind != "" && behind[0] == t[0] && behind[|behind| - 1] != '\n'
  {
  }

  lemma LastIsFeed(line: string, lines: string, eol: string)
    requires IsEol(eol)
    requires lines != "" ==> EndsLine(lines, eol)
    ensures var before := line + eol + lines; before != "" && before[|before| - 1] == '\n'
  {
    var before := line + eol + lines;
    if lines != "" {
      assert before[|before| - 1] == lines[|lines| - |eol|..][|eol| - 1];
    }
  }

  lemma HeadRegroup(line: string, front: string, length: string, behind: string, body: string, eol: string)
    requires IsEol(eol)
    ensures line + eol + (front + (length + (behind + eol)) + (eol + body)) ==
            line + eol + front + length + behind + (eol + eol) + body
  {
  }

  /** The carriage return in front of the line feed, if there is one. */
  function Return(eol: string): string {
    if eol == "\n" then "" else "\r"
  }

  /** The header block announces the length of the body, and the session reads it there. */
  lemma LengthIsRead(before: string, n: nat, behind: string, eol: string)
    requires IsEol(eol)
    requires before != "" && before[|before| - 1] == '\n' && !Contains(before, "Content-Length:") && n < TWO_TO_THE_64
    ensures ContentLength(before + ("Content-Length: " + Digits(n) + eol) + behind) == Some(n)
  {
    var p, headers := |before|, before + ("Content-Length: " + Digits(n) + eol) + behind;
    KeyStands(before, n, behind, eol);
    KeyIsFirst(before, headers, p);
    ValueBehind(before, n, behind, eol);
    StoulReads(" ", n, Return(eol));
    hide Find, FindChar, Stoul, Digits, Contains, OccursAt, ContentLength;
    LengthFound(headers, KEY, p);
  }

  lemma KeyStands(before: string, n: nat, behind: string, eol: string)
    requires IsEol(eol)
    ensures OccursAt(before + ("Content-Length: " + Digits(n) + eol) + behind, KEY, |before|)
  {
    var headers, p := before + ("Content-Length: " + Digits(n) + eol) + behind, |before|;
    var t := "Content-Length: ";
    assert KEY == t[..15];
    hide Digits;
    assert headers[p..p + 15] == t[..15];
  }

  /** The key does not reach over the line feed in front of it. */
  lemma KeyIsFirst(before: string, headers: string, p: nat)
    requires before != "" && before[|before| - 1] == '\n' && !Contains(before, KEY)
    requires p == |before| && before <= headers && OccursAt(headers, KEY, p)
    ensures FoundAt(headers, KEY, p)
  {
    KeyColon(KEY);
    assert headers[..p] == before && headers[p - 1] == '\n';
    forall j: nat | j < p
      ensures !OccursAt(headers, KEY, j)
    {
      if j + 15 <= p {
        OccursInPrefix(headers, p, KEY, j);
      } else {
        NotAt(headers, KEY, j, p - 1 - j);
      }
    }
    FindIs(headers, KEY, 0, p);
  }

  lemma ValueBehind(before: string, n: nat, behind: string, eol: string)
    requires IsEol(eol)
    ensures var headers := before + ("Content-Length: " + Digits(n) + eol) + behind; var p := |before|;
            p + 15 <= |headers| && Terminated(headers, p) && ValueText(headers, p) == " " + Digits(n) + Return(eol)
  {
    var d := Digits(n);
    DigitsShape(n);
    var t := " " + d + Return(eol);
    assert forall i :: 0 <= i < |t| ==> t[i] != '\n';
    hide Digits, Terminated, ValueText;
    ValueRegroup(before, d, eol, behind);
    ValueSlice(before + "Content-Length:" + t + "\n" + behind, before + "Content-Length:", t, behind);
    assert |"Content-Length:"| == 15;
  }

  lemma ValueRegroup(before: string, d: string, eol: string, behind: string)
    requires IsEol(eol)
    ensures before + ("Content-Length: " + d + eol) + behind ==
            before + "Content-Length:" + (" " + d + Return(eol)) + "\n" + behind
  {
    assert "Content-Length: " == "Content-Length:" + " " && eol == Return(eol) + "\n";
  }

  lemma ValueSlice(headers: string, front: string, t: string, behind: string)
    requires |front| >= 15 && headers == front + t + "\n" + behind && forall i :: 0 <= i < |t| ==> t[i] != '\n'
    ensures Terminated(headers, |front| - 15) && ValueText(headers, |front| - 15) == t
  {
    var e := |front| + |t|;
    assert headers[e] == '\n' && forall i :: |front| <= i < e ==> headers[i] == t[i - |front|];
    FindCharIs(headers, '\n', |front|, e);
    assert headers[|front|..e] == t;
  }

  lemma BeginsSo(c: Client, eol: string)
    requires IsEol(eol)
    requires |c.words| >= 2 && IsMethod(c.words[0]) && c.gap != "" && c.gap[0] == ' '
    ensures BeginsWithMethod(Written(c, eol))
  {
    var s, m := Written(c, eol), c.words[0];
    SpacedParts(c.words, c.gap);
    assert Lead(c.words[1..], c.gap)[0] == ' ';
    hide Spaced, Lead, FieldLines;
    assert s[..|m|] == m && s[|m|] == ' ';
  }

  /** A header block of lines that are not empty, and what is behind it: the session frames it by the
      blank line, a bare LFLF where there is no CRLFCRLF anywhere. */
  lemma BlockIsFramed(headers: string, eol: string, body: string)
    requires IsEol(eol)
    requires forall i :: 0 <= i < |headers| && headers[i] == '\n' ==>
               i + 1 < |headers| && headers[i + 1] != '\n' && headers[i + 1] != '\r'
    requires ContentLength(headers) == Some(|body|) && |headers + (eol + eol) + body| < TWO_TO_THE_64
    requires BeginsWithMethod(headers + (eol + eol) + body)
    requires eol == "\n" ==> !Contains(headers + (eol + eol) + body, "\r\n\r\n")
    ensures Framed(headers + (eol + eol) + body)
  {
    var r := headers + (eol + eol) + body;
    assert r[..|headers|] == headers && |eol + eol| == 2 * |eol|;
    if eol == "\n" {
      assert eol + eol == LFLF;
      hide ContentLength, BeginsWithMethod, LfWaits;
      LfEnds(headers, body);
    } else {
      assert eol + eol == CRLFCRLF;
      hide ContentLength, BeginsWithMethod;
      HeadThenBody(headers, body);
      WellFramedIsFramed(r, |headers|);
    }
  }

  lemma WellFramedIsFramed(r: string, h: nat)
    requires WellFramed(r, h)
    ensures Framed(r)
  {
    assert HeadersEndAt(r, h) && |r| < TWO_TO_THE_64;
    hide WellFramed, Framed, SplittingIndependent, HeadersEndAt;
    ExactlyTheWellFramed(r, h);
    ExactlyTheFramed(r);
  }

  lemma LfEnds(head: string, body: string)
    requires forall i :: 0 <= i < |head| && head[i] == '\n' ==>
               i + 1 < |head| && head[i + 1] != '\n' && head[i + 1] != '\r'
    requires !Contains(head + LFLF + body, CRLFCRLF)
    ensures HeaderEnd(head + LFLF + body) == Some(|head|)
  {
    var s, n := head + LFLF + body, |head|;
    assert forall i :: 0 <= i < n ==> s[i] == head[i];
    assert s[n..n + 2] == LFLF;
    forall j: nat | j < n
      ensures !OccursAt(s, LFLF, j)
    {
      if s[j] == '\n' {
        NotAt(s, LFLF, j, 1);
      } else {
        NotAt(s, LFLF, j, 0);
      }
    }
    FindIs(s, LFLF, 0, n);
  }

  /** The body is announced, or there is none and nothing announces one. */
  predicate Complete(c: Client, k: nat, eol: string) {
    && |c.words| >= 2 && IsMethod(c.words[0]) && c.gap != "" && c.gap[0] == ' '
    && (Announces(c, k, eol) || AnnouncesNothing(c, eol))
    && (eol == "\n" ==> !Contains(Written(c, eol), "\r\n\r\n"))
  }

  lemma AnnouncedIsFramed(c: Client, k: nat, eol: string)
    requires IsEol(eol)
    requires Writes(c) && |c.words| >= 2 && IsMethod(c.words[0]) && c.gap[0] == ' ' && Announces(c, k, eol)
    requires |Written(c, eol)| < TWO_TO_THE_64 && (eol == "\n" ==> !Contains(Written(c, eol), "\r\n\r\n"))
    ensures Framed(Written(c, eol))
  {
    var before, behind := HeadParts(c, k, eol);
    var n := |c.body|;
    var headers := before + ("Content-Length: " + Digits(n) + eol) + behind;
    BeginsSo(c, eol);
    LengthLineSteady(n, eol);
    NotContained(before, c, k, eol);
    hide *;
    SteadyHead(before, "Content-Length: " + Digits(n) + eol, behind);
    LengthIsRead(before, n, behind, eol);
    BlockIsFramed(headers, eol, c.body);
  }

  lemma NotContained(before: string, c: Client, k: nat, eol: string)
    requires IsEol(eol)
    requires Announces(c, k, eol) && before == Spaced(c.words, c.gap) + eol + FieldLines(c.fields[..k], eol)
    ensures !Contains(before, "Content-Length:")
  {
  }

  lemma LengthLineSteady(n: nat, eol: string)
    requires IsEol(eol)
    ensures Steady("Content-Length: " + Digits(n) + eol)
    ensures var t := "Content-Length: " + Digits(n) + eol; t[0] == 'C' && |t| > 0
  {
    DigitsShape(n);
    var a, d := "Content-Length: ", Digits(n);
    hide Digits;
    assert OnOneLine(a + d);
    LineIsSteady(a + d, eol);
  }

  lemma SteadyHead(before: string, length: string, behind: string)
    requires Steady(before) && Steady(length) && Steady(behind)
    requires length != "" && length[0] == 'C' && behind != "" && behind[0] != '\n' && behind[0] != '\r'
    requires behind[|behind| - 1] != '\n'
    ensures var s := before + length + behind;
            forall i :: 0 <= i < |s| && s[i] == '\n' ==> i + 1 < |s| && s[i + 1] != '\n' && s[i + 1] != '\r'
  {
    SteadyJoin(before, length);
    SteadyJoin(before + length, behind);
    var s := before + length + behind;
    assert s[|s| - 1] == behind[|behind| - 1];
  }

  lemma PrefixLacksKey(lines: string, headers: string, key: string)
    requires headers <= lines && !Contains(lines, key)
    ensures Find(headers, key, 0) == None
  {
    assert headers == lines[..|headers|];
    PrefixLacks(lines, |headers|, key);
  }

  lemma QuietIsFramed(c: Client, eol: string)
    requires IsEol(eol)
    requires Writes(c) && |c.words| >= 2 && IsMethod(c.words[0]) && c.gap[0] == ' ' && AnnouncesNothing(c, eol)
    requires |Written(c, eol)| < TWO_TO_THE_64 && (eol == "\n" ==> !Contains(Written(c, eol), "\r\n\r\n"))
    ensures Framed(Written(c, eol))
  {
    var lines := Spaced(c.words, c.gap) + eol + FieldLines(c.fields, eol);
    var headers := lines[..|lines| - |eol|];
    BeginsSo(c, eol);
    LinesEnd(c, lines, headers, eol);
    assert c.body == "" && !Contains(lines, "Content-Length:") && !Contains(lines, "content-length:");
    assert Written(c, eol) == Spaced(c.words, c.gap) + eol + (FieldLines(c.fields, eol) + (eol + ""));
    hide *;
    PrefixLacksKey(lines, headers, "Content-Length:");
    PrefixLacksKey(lines, headers, "content-length:");
    QuietLength(headers);
    QuietRegroup(Spaced(c.words, c.gap), FieldLines(c.fields, eol), headers, eol);
    BlockIsFramed(headers, eol, "");
  }

  lemma QuietLength(headers: string)
    requires Find(headers, "Content-Length:", 0) == None && Find(headers, "content-length:", 0) == None
    ensures ContentLength(headers) == Some(|""|)
  {
    NoLengthFound(headers);
    hide Find, ContentLength;
  }

  lemma QuietRegroup(line: string, fields: string, headers: string, eol: string)
    requires IsEol(eol)
    requires line + eol + fields == headers + eol
    ensures line + eol + (fields + (eol + "")) == headers + (eol + eol) + ""
  {
    assert line + eol + (fields + (eol + "")) == (line + eol + fields) + eol;
  }

  lemma LinesEnd(c: Client, lines: string, headers: string, eol: string)
    requires IsEol(eol)
    requires Writes(c) && |c.words| >= 2 && lines == Spaced(c.words, c.gap) + eol + FieldLines(c.fields, eol)
    requires headers == lines[..|lines| - |eol|]
    ensures lines == headers + eol
    ensures forall i :: 0 <= i < |headers| && headers[i] == '\n' ==>
              i + 1 < |headers| && headers[i + 1] != '\n' && headers[i + 1] != '\r'
  {
    var line, fields := Spaced(c.words, c.gap), FieldLines(c.fields, eol);
    LinesAreSteady(c.fields, eol);
    SpacedOnOneLine(c.words, c.gap);
    SpacedParts(c.words, c.gap);
    assert IsWord(c.words[0]) && line != "" by {
      assert c.words[0] in c.words;
    }
    LineIsSteady(line, eol);
    hide Spaced, FieldLines, IsField, IsWord, Steady, EndsLine, OnOneLine;
    LastOfLines(line, fields, eol);
    SteadyJoin(line + eol, fields);
    CutLine(lines, headers, eol);
    SteadyLines(headers);
  }

  lemma SteadyLines(headers: string)
    requires Steady(headers) && headers != "" && headers[|headers| - 1] != '\n'
    ensures forall i :: 0 <= i < |headers| && headers[i] == '\n' ==>
              i + 1 < |headers| && headers[i + 1] != '\n' && headers[i + 1] != '\r'
  {
  }

  /** However such a request is split into reads, it is handed over whole, and parsed as it was
      written. */
  lemma ServedAsWritten(c: Client, k: nat, eol: string, chunks: seq<string>, r: Request)
    requires Writes(c) && IsEol(eol) && Complete(c, k, eol)
    requires |Written(c, eol)| < TWO_TO_THE_64 && IsSplit(chunks, Written(c, eol))
    requires r.raw == Written(c, eol) && r.Parsed()
    ensures Run(START, Reads(chunks)) == State(r.raw, Phase.Writing, [Dispatched(r.raw)])
    ensures r.method_ == c.words[0] && r.uri == c.words[1] && r.version == WordAt(c.words, 2)
    ensures r.headers == FieldMap(c.fields, map[])
    ensures r.body == if c.body != "" && c.body[|c.body| - 1] == '\n' then c.body[..|c.body| - 1] else c.body
  {
    ParsedAsWritten(r, c, eol);
    hide Written, Framed, Run, SplittingIndependent, Announces, AnnouncesNothing, Writes, IsMethod, FieldMap, Contains;
    if Announces(c, k, eol) {
      AnnouncedIsFramed(c, k, eol);
    } else {
      QuietIsFramed(c, eol);
    }
    ExactlyTheFramed(r.raw);
    IndependentRuns(r.raw, chunks);
  }

  lemma IndependentRuns(r: string, chunks: seq<string>)
    requires SplittingIndependent(r) && IsSplit(chunks, r)
    ensures Run(START, Reads(chunks)) == State(r, Phase.Writing, [Dispatched(r)])
  {
    hide Run;
  }

  // ------------------------------------------------------------------- other announced lengths

  /** A sign in front of the digits: a minus counts back from 2^64. */
  lemma SignedLength(n: nat, rest: string)
    requires rest != "" ==> !('0' <= rest[0] <= '9')
    ensures Stoul("+" + Digits(n) + rest) == if n < 0x1_0000_0000_0000_0000 then Some(n) else None
    ensures Stoul("-" + Digits(n) + rest) ==
            if n == 0 then Some(0) else if n < 0x1_0000_0000_0000_0000 then Some(0x1_0000_0000_0000_0000 - n) else None
  {
    var t := Digits(n) + rest;
    SignFirst('+', Digits(n), rest);
    SignFirst('-', Digits(n), rest);
    DigitsShape(n);
    assert t[0] == Digits(n)[0];
    ReadWritten(n, rest);
    DigitsAreRead(t, 0);
    assert ReadDigits(rest, n) == (n, rest);
    hide Digits, ReadDigits, DigitsValue;
  }

  lemma SignFirst(sign: char, digits: string, rest: string)
    ensures ([sign] + digits + rest)[0] == sign && ([sign] + digits + rest)[1..] == digits + rest
  {
  }

  /** A text that begins otherwise is no number, and the session closes. */
  lemma NoNumber(s: string)
    requires s == "" || (s[0] != ' ' && !(9 as char <= s[0] <= 13 as char) && s[0] != '+' && s[0] != '-' && !('0' <= s[0] <= '9'))
    ensures Stoul(s) == None
  {
  }
}
