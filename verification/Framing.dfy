/** What the announced length of a request is, and whether the session honours it: its search
    of the header block against the line parser's header fields. */
module Framing {
  import opened Wrappers
  import opened Text
  import opened Session
  import opened Request

  const KEY := "Content-Length:"
  const LOWER_KEY := "content-length:"

  // -------------------------------------------------------------- what the session's search finds

  /** The two spellings looked for, the second one only where the first is missing. */
  predicate FoundAt(headers: string, key: string, p: nat) {
    && Find(headers, key, 0) == Some(p)
    && (key == KEY || (key == LOWER_KEY && Find(headers, KEY, 0).None?))
  }

  /** The text behind the key, up to the end of its line. */
  function ValueText(headers: string, p: nat): string
    requires p + 15 <= |headers|
  {
    match FindChar(headers, '\n', p + 15)
    case Some(e) => headers[p + 15..e]
    case None => headers[p + 15..]
  }

  predicate Terminated(headers: string, p: nat) {
    FindChar(headers, '\n', p + 15).Some?
  }

  lemma KeyColon(key: string)
    requires key == KEY || key == LOWER_KEY
    ensures |key| == 15 && key[14] == ':' && forall i :: 0 <= i < 14 ==> key[i] != ':' && key[i] != '\n'
  {
    var a, b := "Content-Length:", "content-length:";
    assert key == a || key == b;
  }

  /** The first colon from the key on is the key's own. */
  lemma ColonOfKey(headers: string, key: string, p: nat)
    requires (key == KEY || key == LOWER_KEY) && OccursAt(headers, key, p)
    ensures p + 15 <= |headers| && FindChar(headers, ':', p) == Some(p + 14)
    ensures forall i :: p <= i < p + 15 ==> headers[i] != '\n'
  {
    KeyColon(key);
    forall j | p <= j < p + 15
      ensures headers[j] == key[j - p]
    {
      assert headers[j] == headers[p..p + 15][j - p];
    }
    FindCharIs(headers, ':', p, p + 14);
  }

  /** Trimming does not change the number a text begins with. */
  lemma {:induction false} StoulTrimLeft(s: string)
    ensures Stoul(TrimLeft(s)) == Stoul(s)
  {
    if s != "" && IsBlank(s[0]) {
      StoulTrimLeft(s[1..]);
    }
  }

  lemma {:induction false} StoulSkipSpace(s: string)
    ensures Stoul(SkipSpace(s)) == Stoul(s)
  {
    if s != "" && IsSpace(s[0]) {
      StoulSkipSpace(s[1..]);
    }
  }

  lemma {:induction false} DigitsThen(s: string, c: char, value: nat)
    requires !('0' <= c <= '9')
    ensures DigitsValue(s + [c], value) == DigitsValue(s, value)
    decreases |s|
  {
    var t := s + [c];
    if s != "" && '0' <= s[0] <= '9' {
      assert t[0] == s[0] && t[1..] == s[1..] + [c];
      DigitsThen(s[1..], c, 10 * value + (s[0] as int - '0' as int));
    } else if s != "" {
      assert t[0] == s[0];
    } else {
      assert t[0] == c;
    }
  }

  /** White space at the end does not either. */
  lemma {:induction false} StoulSnoc(s: string, c: char)
    requires IsWhite(c)
    ensures Stoul(s + [c]) == Stoul(s)
    decreases |s|
  {
    var t := s + [c];
    if s == "" {
      assert t[0] == c && t[1..] == "";
    } else {
      assert t[0] == s[0] && t[1..] == s[1..] + [c];
      if IsWhite(s[0]) {
        StoulSnoc(s[1..], c);
      } else {
        DigitsThen(s, c, 0);
        DigitsThen(s[1..], c, 0);
        if |s| > 1 {
          assert t[1..][0] == s[1..][0];
        } else {
          assert t[1..][0] == c;
        }
      }
    }
  }

  lemma {:induction false} StoulTrimRight(s: string)
    ensures Stoul(TrimRight(s)) == Stoul(s)
    decreases |s|
  {
    if s != "" && IsBlank(s[|s| - 1]) {
      var front := s[..|s| - 1];
      StoulTrimRight(front);
      StoulSnoc(front, s[|s| - 1]);
      assert s == front + [s[|s| - 1]];
    }
  }

  lemma StoulDropReturn(s: string)
    ensures Stoul(DropReturn(s)) == Stoul(s)
  {
    if s != "" && s[|s| - 1] == '\r' {
      StoulSnoc(s[..|s| - 1], '\r');
      assert s == s[..|s| - 1] + ['\r'];
    }
  }

  /** The length the session reads: the number behind the key when a line feed follows it
      inside the header block, and zero when the header is the last line; zero without a
      key. */
  lemma LengthFound(headers: string, key: string, p: nat)
    requires FoundAt(headers, key, p)
    ensures p + 15 <= |headers|
    ensures ContentLength(headers) == if Terminated(headers, p) then Stoul(ValueText(headers, p)) else Some(0)
  {
    ColonOfKey(headers, key, p);
    var v := ValueText(headers, p);
    StoulTrimLeft(v);
    StoulTrimRight(TrimLeft(v));
    hide Find, FindChar, Stoul, TrimLeft, TrimRight;
  }

  lemma NoLengthFound(headers: string)
    requires Find(headers, KEY, 0).None? && Find(headers, LOWER_KEY, 0).None?
    ensures ContentLength(headers) == Some(0)
  {
  }

  /** So the announced length is honoured exactly when the header is not the last line, or
      announces nothing. */
  lemma LengthHonoured(headers: string, key: string, p: nat)
    requires FoundAt(headers, key, p)
    ensures p + 15 <= |headers|
    ensures ContentLength(headers) == Stoul(ValueText(headers, p)) <==>
            Terminated(headers, p) || Stoul(ValueText(headers, p)) == Some(0)
  {
    LengthFound(headers, key, p);
  }

  // ------------------------------------------------------------------------ what is dispatched

  /** A request whose length is announced on its last header line is dispatched without any
      of its body. */
  lemma LastHeaderIgnored(r: string, h: nat, key: string, p: nat)
    requires HeadersEndAt(r, h) && (Contains(r, "HTTP/") ==> BeginsWithMethod(r)) && |r| < TWO_TO_THE_64
    requires FoundAt(r[..h], key, p) && !Terminated(r[..h], p)
    ensures Judge(r) == Dispatch(r[..h + 4])
  {
    EndIsFound(r, h);
    assert Total(h, true, 0) == h + 4;
    hide *;
    LengthFound(r[..h], key, p);
    JudgedBy(r, h, true, r[..h]);
  }

  const SHORT_POST := "POST /api/A HTTP/1.1\r\nContent-Length: 5\r\n\r\n"

  /** One such request: it announces five bytes, sends them, and none is handed over. */
  lemma BodyDropped()
    ensures Judge(SHORT_POST + "hello") == Dispatch(SHORT_POST)
    ensures FoundAt(SHORT_POST[..39], KEY, 22) && Stoul(ValueText(SHORT_POST[..39], 22)) == Some(5)
  {
    var head, r := "POST /api/A HTTP/1.1\r\nContent-Length: 5", SHORT_POST + "hello";
    ShortPostParts(head, r);
    ShortPostKey();
    ShortPostFirstLine(r);
    ShortPostLines(head);
    HeadThenBody(head, "hello");
    hide Find, FindChar, Contains, BeginsWithMethod, Stoul, Judge, OccursAt, HeadersEndAt, ValueText, Terminated, FoundAt;
    LastHeaderIgnored(r, 39, KEY, 22);
  }

  lemma ShortPostParts(head: string, r: string)
    requires head == "POST /api/A HTTP/1.1\r\nContent-Length: 5" && r == SHORT_POST + "hello"
    ensures |head| == 39 && SHORT_POST == head + CRLFCRLF && |r| == 48
    ensures SHORT_POST[..39] == head && r[..39] == head && r[..43] == SHORT_POST
  {
  }

  /** Lines without a blank one between them, a blank line, and a body. */
  lemma HeadThenBody(head: string, body: string)
    requires forall i :: 0 <= i < |head| && head[i] == '\n' ==>
               i + 1 < |head| && head[i + 1] != '\n' && head[i + 1] != '\r'
    ensures HeadersEndAt(head + CRLFCRLF + body, |head|)
  {
    var s, n := head + CRLFCRLF + body, |head|;
    var e := "\r\n\r\n";
    assert forall i :: 0 <= i < n ==> s[i] == head[i];
    assert s[n..n + 4] == e && forall i :: 0 <= i < 4 ==> s[n + i] == e[i];
    forall j: nat | j < n
      ensures !OccursAt(s, CRLFCRLF, j)
    {
      FourChars(s, j);
    }
    FindIs(s, CRLFCRLF, 0, n);
    forall j | 0 <= j <= n + 2
      ensures !OccursAt(s, LFLF, j)
    {
      assert s[j..j + 2] == [s[j], s[j + 1]];
    }
  }

  lemma PostFirst(line: string, rest: string)
    requires 5 <= |line| && line[..5] == "POST "
    ensures BeginsWithMethod(line + rest)
  {
    var s, m := line + rest, "POST ";
    assert s[..5] == m && m[..4] == "POST" && m[4] == ' ';
    assert s[..4] == s[..5][..4] && s[4] == s[..5][4];
  }

  lemma ShortPostFirstLine(r: string)
    requires r == SHORT_POST + "hello"
    ensures BeginsWithMethod(r)
  {
    var line, rest := "POST /api/A HTTP/1.1\r", "\nContent-Length: 5\r\n\r\n";
    assert SHORT_POST == line + rest;
    assert line[..5] == "POST ";
    hide BeginsWithMethod;
    PostFirst(line, rest + "hello");
    assert r == line + (rest + "hello");
  }

  lemma ShortPostLines(head: string)
    requires head == "POST /api/A HTTP/1.1\r\nContent-Length: 5"
    ensures forall i :: 0 <= i < |head| && head[i] == '\n' ==>
              i + 1 < |head| && head[i + 1] != '\n' && head[i + 1] != '\r'
  {
    forall i | 0 <= i < |head| && head[i] == '\n'
      ensures i + 1 < |head| && head[i + 1] != '\n' && head[i + 1] != '\r'
    {
      assert i == 21 && head[22] == 'C';
    }
  }

  lemma ShortPostKey()
    ensures FoundAt("POST /api/A HTTP/1.1\r\nContent-Length: 5", KEY, 22)
    ensures ValueText("POST /api/A HTTP/1.1\r\nContent-Length: 5", 22) == " 5"
    ensures !Terminated("POST /api/A HTTP/1.1\r\nContent-Length: 5", 22) && Stoul(" 5") == Some(5)
  {
    var s := "POST /api/A HTTP/1.1\r\nContent-Length: 5";
    KeyIsFound(s);
    forall j | 37 <= j < |s|
      ensures s[j] != '\n'
    {
      assert s[j] == ' ' || s[j] == '5';
    }
    FindCharNone(s, '\n', 37);
    assert s[37..] == " 5";
    FiveIsFive();
  }

  lemma KeyIsFound(s: string)
    requires s == "POST /api/A HTTP/1.1\r\nContent-Length: 5"
    ensures Find(s, KEY, 0) == Some(22)
  {
    assert s[22..37] == "Content-Length:" == KEY;
    forall j: nat | j < 22
      ensures !OccursAt(s, KEY, j)
    {
      assert s[j..j + 15][0] == s[j] && KEY[0] == 'C';
      assert s[j] != 'C';
    }
    FindIs(s, KEY, 0, 22);
  }

  lemma FiveIsFive()
    ensures Stoul(" 5") == Some(5)
  {
    assert " 5"[1..] == "5" && "5"[1..] == "";
    assert DigitsValue("5", 0) == DigitsValue("", 5) == 5;
  }

  // ----------------------------------------------------------------------- the line parser's view

  /** The line that begins at `p`. */
  function LineAt(s: string, p: nat): string
    requires p <= |s|
  {
    match FindChar(s, '\n', p)
    case Some(e) => s[p..e]
    case None => s[p..]
  }

  predicate LineStart(s: string, p: nat) {
    0 < p <= |s| && s[p - 1] == '\n'
  }

  /** A header field's name is a colon away from its value. */
  predicate FieldAt(s: string, name: string, p: nat) {
    OccursAt(s, name + ":", p)
  }

  /** A line enters the map under `name` exactly when it begins with the name and a colon. */
  lemma AddedField(headers: map<string, string>, line: string, name: string)
    requires ':' !in name
    ensures StartsWith(line, name + ":") ==>
              |name| < |line| && AddHeader(headers, line) == headers[name := SkipSpace(line[|name| + 1..])]
    ensures !StartsWith(line, name + ":") && name in headers ==>
              name in AddHeader(headers, line) && AddHeader(headers, line)[name] == headers[name]
  {
    var n, key := |name|, name + ":";
    if StartsWith(line, key) {
      assert line[0..n + 1] == key && line[n] == key[n] == ':' && line[..n] == name;
      assert forall i :: 0 <= i < n ==> line[i] == line[..n][i];
      FindCharIs(line, ':', 0, n);
    } else {
      var c := FindChar(line, ':', 0);
      if c.Some? {
        assert line[0..c.value + 1] == line[..c.value] + ":";
      }
    }
  }

  /** A return at the end of the line is not part of a key with a colon at its end. */
  lemma KeyStays(line: string, key: string)
    requires 0 < |key| <= |line| && key[|key| - 1] == ':' && forall i :: 0 <= i < |key| ==> line[i] == key[i]
    ensures |key| <= |DropReturn(line)| && DropReturn(line)[0..|key|] == key
  {
    var d := DropReturn(line);
    if |line| == |key| {
      assert line[|line| - 1] == ':';
    }
    assert forall i :: 0 <= i < |d| ==> d[i] == line[i];
  }

  lemma FieldOfLine(s: string, name: string, p: nat)
    requires ':' !in name && '\n' !in name && '\r' !in name && p <= |s|
    ensures StartsWith(DropReturn(LineAt(s, p)), name + ":") <==> FieldAt(s, name, p)
  {
    var line, key := LineAt(s, p), name + ":";
    var n := |key|;
    assert forall i :: 0 <= i < n ==> key[i] == if i < n - 1 then name[i] else ':';
    assert forall i :: 0 <= i < |line| ==> line[i] == s[p + i];
    var d := DropReturn(line);
    if FieldAt(s, name, p) {
      assert forall i :: 0 <= i < n ==> s[p + i] == s[p..p + n][i] == key[i];
      assert n <= |line|;
      assert forall i :: 0 <= i < n ==> line[i] == key[i];
      KeyStays(line, key);
    }
    if StartsWith(d, key) {
      assert s[p..p + n] == d[0..n];
    }
  }

  /** One line of the loop over headers. */
  lemma HeaderStep(s: string, pos: nat, m: map<string, string>) returns (next: nat)
    requires pos < |s|
    ensures pos < next <= |s| && (next < |s| ==> LineStart(s, next)) && forall q :: pos < q < next ==> !LineStart(s, q)
    ensures DropReturn(LineAt(s, pos)) == "" ==> ReadHeaders(s, pos, m) == (m, next)
    ensures DropReturn(LineAt(s, pos)) != "" ==>
              ReadHeaders(s, pos, m) == ReadHeaders(s, next, AddHeader(m, DropReturn(LineAt(s, pos))))
  {
    var (line, n) := GetLine(s, pos).value;
    next := n;
    assert line == LineAt(s, pos);
    hide AddHeader;
  }

  /** The field of a name that begins one line, and no later one, is the text behind its
      colon. */
  lemma {:induction false} FieldRead(s: string, pos: nat, m: map<string, string>, name: string, p: nat)
    requires ':' !in name && '\n' !in name && '\r' !in name
    requires pos <= p < |s| && p < ReadHeaders(s, pos, m).1 && (p == pos || LineStart(s, p)) && FieldAt(s, name, p)
    requires forall q :: p < q < ReadHeaders(s, pos, m).1 && LineStart(s, q) ==> !FieldAt(s, name, q)
    ensures |name| < |DropReturn(LineAt(s, p))|
    ensures var fields := ReadHeaders(s, pos, m).0;
            name in fields && fields[name] == SkipSpace(DropReturn(LineAt(s, p))[|name| + 1..])
    decreases |s| - pos
  {
    FieldOfLine(s, name, p);
    var line := DropReturn(LineAt(s, pos));
    AddedField(m, line, name);
    AddedField(m, DropReturn(LineAt(s, p)), name);
    var next := HeaderStep(s, pos, m);
    hide FieldAt, StartsWith, SkipSpace, AddHeader, LineAt, DropReturn, ReadHeaders;
    if p == pos {
      KeptField(s, next, AddHeader(m, line), name);
    } else if line != "" {
      FieldRead(s, next, AddHeader(m, line), name, p);
    }
  }

  /** Lines that do not begin with the name leave its field alone. */
  lemma {:induction false} KeptField(s: string, pos: nat, m: map<string, string>, name: string)
    requires ':' !in name && '\n' !in name && '\r' !in name && pos <= |s| && name in m
    requires pos < |s| ==> LineStart(s, pos)
    requires forall q :: pos <= q < ReadHeaders(s, pos, m).1 && LineStart(s, q) ==> !FieldAt(s, name, q)
    ensures var fields := ReadHeaders(s, pos, m).0; name in fields && fields[name] == m[name]
    decreases |s| - pos
  {
    if pos < |s| {
      var line := DropReturn(LineAt(s, pos));
      FieldOfLine(s, name, pos);
      AddedField(m, line, name);
      var next := HeaderStep(s, pos, m);
      hide FieldAt, StartsWith, SkipSpace, AddHeader, LineAt, DropReturn, ReadHeaders;
      if line != "" {
        KeptField(s, next, AddHeader(m, line), name);
      }
    }
  }

  /** The header fields of a request as the line parser reads them. */
  function Fields(r: string): map<string, string> {
    ReadHeaders(r, AfterFirstLine(r), map[]).0
  }

  /** The last line of the line parser's header block that begins with the key. */
  predicate LastField(r: string, key: string, q: nat) {
    && q < BodyStart(r) && LineStart(r, q) && OccursAt(r, key, q)
    && forall q' :: q < q' < BodyStart(r) && LineStart(r, q') ==> !OccursAt(r, key, q')
  }

  lemma KeyName(key: string)
    requires key == KEY || key == LOWER_KEY
    ensures |key| == 15 && key[..14] + ":" == key
    ensures ':' !in key[..14] && '\n' !in key[..14] && '\r' !in key[..14]
  {
    KeyColon(key);
    var a, b := "Content-Length", "content-length";
    assert key[..14] == a || key[..14] == b;
  }

  /** The separator of the headers, and that the line parser has stopped there at the latest. */
  lemma EndChars(r: string, h: nat)
    requires HeaderEnd(r) == Some(h)
    ensures h + 2 <= |r| && (r[h] == '\n' || (r[h] == '\r' && r[h + 1] == '\n'))
    ensures forall q :: h <= q < BodyStart(r) ==> r[q] == '\r' || r[q] == '\n'
  {
    if Find(r, CRLFCRLF, 0).Some? {
      CrlfEndChars(r, h);
    } else {
      LfEndChars(r, h);
    }
  }

  lemma CrlfEndChars(r: string, h: nat)
    requires Find(r, CRLFCRLF, 0) == Some(h)
    ensures h + 2 <= |r| && r[h] == '\r' && r[h + 1] == '\n'
    ensures forall q :: h <= q < BodyStart(r) ==> r[q] == '\r' || r[q] == '\n'
  {
    CrlfBlank(r, h);
    hide *;
    StopsBy(r, h + 1);
    forall q | h <= q < BodyStart(r)
      ensures r[q] == '\r' || r[q] == '\n'
    {
      assert q == h || q == h + 1 || q == h + 2 || q == h + 3;
    }
  }

  lemma CrlfBlank(r: string, h: nat)
    requires Find(r, CRLFCRLF, 0) == Some(h)
    ensures h + 3 < |r| && r[h] == '\r' && r[h + 1] == '\n' && r[h + 2] == '\r' && r[h + 3] == '\n'
    ensures BlankAfter(r, h + 1) && BlankEnd(r, h + 1) == h + 4
  {
    FourChars(r, h);
    BlankChars(r, h + 2);
    hide Find;
  }

  lemma LfEndChars(r: string, h: nat)
    requires Find(r, LFLF, 0) == Some(h)
    ensures h + 2 <= |r| && r[h] == '\n'
    ensures forall q :: h <= q < BodyStart(r) ==> r[q] == '\r' || r[q] == '\n'
  {
    LfBlank(r, h);
    hide *;
    StopsBy(r, h);
    forall q | h <= q < BodyStart(r)
      ensures r[q] == '\r' || r[q] == '\n'
    {
      assert q == h || q == h + 1;
    }
  }

  lemma LfBlank(r: string, h: nat)
    requires Find(r, LFLF, 0) == Some(h)
    ensures h + 1 < |r| && r[h] == '\n' && r[h + 1] == '\n' && BlankAfter(r, h) && BlankEnd(r, h) == h + 2
  {
    LfFound(r, h);
    BlankChars(r, h + 1);
    hide Find;
  }

  lemma StopsBy(r: string, i: nat)
    requires BlankAfter(r, i)
    ensures BodyStart(r) <= BlankEnd(r, i)
  {
    var first := FirstBlank(r, i);
    BodyStartIs(r, first);
    hide BodyStart;
    BlankChars(r, first + 1);
    BlankChars(r, i + 1);
  }

  /** A line of the header block that begins with the key holds it in front of the end. */
  lemma KeyInside(r: string, h: nat, key: string, q: nat)
    requires HeaderEnd(r) == Some(h) && (key == KEY || key == LOWER_KEY) && OccursAt(r, key, q) && q < BodyStart(r)
    ensures q + 15 <= h && OccursAt(r[..h], key, q)
  {
    EndChars(r, h);
    KeyChars(r, key, q);
    KeyName(key);
    hide HeaderEnd, BodyStart;
    assert r[q] != '\n' && r[q] != '\r';
    OccursInPrefix(r, h, key, q);
  }

  lemma KeyChars(r: string, key: string, q: nat)
    requires (key == KEY || key == LOWER_KEY) && OccursAt(r, key, q)
    ensures q + 15 <= |r| && forall i :: q <= i < q + 15 ==> r[i] != '\n' && r[i] != '\r'
  {
    KeyName(key);
    assert key[14] == ':' && forall i :: 0 <= i < 14 ==> key[i] == key[..14][i];
    assert forall i :: q <= i < q + 15 ==> r[i] == r[q..q + 15][i - q];
  }

  // ------------------------------------------------------------------ the field that is kept

  /** No line begins with the name, so there is no such field. */
  lemma {:induction false} AbsentField(s: string, pos: nat, m: map<string, string>, name: string)
    requires ':' !in name && '\n' !in name && '\r' !in name && pos <= |s| && name !in m
    requires pos < |s| ==> LineStart(s, pos)
    requires forall q :: pos <= q < ReadHeaders(s, pos, m).1 && LineStart(s, q) ==> !FieldAt(s, name, q)
    ensures name !in ReadHeaders(s, pos, m).0
    decreases |s| - pos
  {
    if pos < |s| {
      var line := DropReturn(LineAt(s, pos));
      FieldOfLine(s, name, pos);
      NotAdded(m, line, name);
      var next := HeaderStep(s, pos, m);
      hide FieldAt, StartsWith, SkipSpace, AddHeader, LineAt, DropReturn, ReadHeaders;
      if line != "" {
        AbsentField(s, next, AddHeader(m, line), name);
      }
    }
  }

  lemma NotAdded(headers: map<string, string>, line: string, name: string)
    requires !StartsWith(line, name + ":") && name !in headers
    ensures name !in AddHeader(headers, line)
  {
    var c := FindChar(line, ':', 0);
    if c.Some? {
      assert line[0..c.value + 1] == line[..c.value] + ":";
    }
  }

  lemma FirstLineStart(r: string)
    ensures AfterFirstLine(r) < |r| ==> LineStart(r, AfterFirstLine(r))
    ensures forall q :: LineStart(r, q) ==> AfterFirstLine(r) <= q
  {
  }

  /** The field is there exactly when a line of the block begins with the key. */
  lemma FieldPresent(r: string, key: string) returns (q: Option<nat>)
    requires key == KEY || key == LOWER_KEY
    ensures q.Some? <==> key[..14] in Fields(r)
    ensures q.Some? ==> LastField(r, key, q.value)
  {
    KeyName(key);
    FirstLineStart(r);
    q := LastLine(r, key, BodyStart(r));
    hide OccursAt, LineStart, AfterFirstLine;
    if q.Some? {
      FieldRead(r, AfterFirstLine(r), map[], key[..14], q.value);
    } else {
      AbsentField(r, AfterFirstLine(r), map[], key[..14]);
    }
  }

  lemma {:induction false} LastLine(r: string, key: string, end: nat) returns (q: Option<nat>)
    ensures q.Some? ==> q.value < end && LineStart(r, q.value) && OccursAt(r, key, q.value)
    ensures q.Some? ==> forall q' :: q.value < q' < end && LineStart(r, q') ==> !OccursAt(r, key, q')
    ensures q.None? ==> forall q' :: 0 <= q' < end && LineStart(r, q') ==> !OccursAt(r, key, q')
  {
    hide LineStart, OccursAt;
    if end == 0 {
      q := None;
    } else if LineStart(r, end - 1) && OccursAt(r, key, end - 1) {
      q := Some(end - 1);
    } else {
      q := LastLine(r, key, end - 1);
    }
  }

  /** The field's value is the text behind the last such key. */
  lemma FieldIs(r: string, key: string, q: nat)
    requires (key == KEY || key == LOWER_KEY) && LastField(r, key, q)
    ensures |key| == 15 && key[..14] in Fields(r) && 15 <= |DropReturn(LineAt(r, q))|
    ensures Fields(r)[key[..14]] == SkipSpace(DropReturn(LineAt(r, q))[15..])
  {
    KeyName(key);
    FirstLineStart(r);
    hide OccursAt, LineStart, AfterFirstLine;
    FieldRead(r, AfterFirstLine(r), map[], key[..14], q);
  }

  /** The text behind the key, as both parsers cut it, begins with the same number. */
  lemma SameNumber(r: string, h: nat, key: string, q: nat)
    requires HeaderEnd(r) == Some(h) && (key == KEY || key == LOWER_KEY) && OccursAt(r, key, q) && q < BodyStart(r)
    ensures q + 15 <= h && 15 <= |DropReturn(LineAt(r, q))|
    ensures Stoul(DropReturn(LineAt(r, q))[15..]) == Stoul(ValueText(r[..h], q))
  {
    KeyInside(r, h, key, q);
    EndChars(r, h);
    ColonOfKey(r[..h], key, q);
    hide Find, FindChar, OccursAt, HeaderEnd, BodyStart, LineAt, ValueText, Stoul, DropReturn;
    LineBehind(r, h, q);
    var line, v := LineAt(r, q), ValueText(r[..h], q);
    DropBehindColon(line);
    StoulDropReturn(line[15..]);
    StoulSnoc(v, '\r');
  }

  lemma DropBehindColon(line: string)
    requires 15 <= |line| && line[14] == ':'
    ensures 15 <= |DropReturn(line)| && DropReturn(line)[15..] == DropReturn(line[15..])
  {
    if |line| > 15 {
      assert line[15..][|line| - 16] == line[|line| - 1];
    }
  }

  /** The line of the key is cut at its line feed, or at the one that ends the block. */
  lemma LineBehind(r: string, h: nat, q: nat)
    requires q + 15 <= h && h + 2 <= |r| && (r[h] == '\n' || (r[h] == '\r' && r[h + 1] == '\n'))
    requires r[..h][q + 14] == ':' && forall i :: q <= i < q + 15 ==> r[..h][i] != '\n'
    ensures 15 <= |LineAt(r, q)| && LineAt(r, q)[14] == ':'
    ensures var v := ValueText(r[..h], q); LineAt(r, q)[15..] == v || LineAt(r, q)[15..] == v + ['\r']
  {
    var head := r[..h];
    assert forall i :: 0 <= i < h ==> r[i] == head[i];
    match FindChar(head, '\n', q + 15)
    case Some(e) =>
      FindCharIs(r, '\n', q, e);
      CutLine(r, q, e, h);
    case None =>
      var e := if r[h] == '\n' then h else h + 1;
      FindCharIs(r, '\n', q, e);
      CutLine(r, q, e, e);
      assert r[q + 15..h] == head[q + 15..] && r[q + 15..h] + [r[h]] == r[q + 15..h + 1];
  }

  lemma CutLine(r: string, p: nat, e: nat, h: nat)
    requires p + 15 <= e <= h <= |r|
    ensures r[p..e][15..] == r[p + 15..e] == r[..h][p + 15..e] && r[p..e][14] == r[p + 14]
  {
  }

  /** The number in the line parser's field of that name. */
  lemma FieldNumber(r: string, h: nat, key: string, q: nat)
    requires HeaderEnd(r) == Some(h) && (key == KEY || key == LOWER_KEY) && LastField(r, key, q)
    ensures |key| == 15 && key[..14] in Fields(r) && q + 15 <= h
    ensures Stoul(Fields(r)[key[..14]]) == Stoul(ValueText(r[..h], q))
  {
    FieldIs(r, key, q);
    SameNumber(r, h, key, q);
    StoulSkipSpace(DropReturn(LineAt(r, q))[15..]);
    hide Find, FindChar, Stoul, Fields, ValueText, SkipSpace, DropReturn, LineAt, HeaderEnd, LastField;
  }

  // ------------------------------------------------------------------ whether they agree

  /** The number behind the key at `q` is the one that the session reads for the key at `p`:
      the number behind it, or zero when no line feed ends its line. */
  predicate SameLength(headers: string, p: nat, q: nat) {
    && p + 15 <= |headers| && q + 15 <= |headers|
    && Stoul(ValueText(headers, q)) == if Terminated(headers, p) then Stoul(ValueText(headers, p)) else Some(0)
  }

  /** The line parser's field, in either spelling, and the session agree on the length exactly
      when the number behind the last key at the beginning of a line is the one that the
      session reads for the first key anywhere. */
  lemma LengthsAgree(r: string, h: nat, key: string, p: nat, field: string, q: nat)
    requires HeaderEnd(r) == Some(h) && FoundAt(r[..h], key, p)
    requires (field == KEY || field == LOWER_KEY) && LastField(r, field, q)
    ensures |field| == 15 && field[..14] in Fields(r)
    ensures ContentLength(r[..h]) == Stoul(Fields(r)[field[..14]]) <==> SameLength(r[..h], p, q)
  {
    FieldNumber(r, h, field, q);
    LengthFound(r[..h], key, p);
    hide Find, FindChar, Stoul, ContentLength, Fields, BodyStart, ValueText, LastField, HeaderEnd, Terminated, FoundAt;
  }

  /** Where the first key is the only one at the beginning of a line, that is to be followed by
      another header line, or to announce nothing. */
  lemma LengthsAgreeOnOne(r: string, h: nat, key: string, p: nat)
    requires HeaderEnd(r) == Some(h) && FoundAt(r[..h], key, p) && LastField(r, key, p)
    ensures |key| == 15 && key[..14] in Fields(r)
    ensures ContentLength(r[..h]) == Stoul(Fields(r)[key[..14]]) <==>
            Terminated(r[..h], p) || Stoul(Fields(r)[key[..14]]) == Some(0)
  {
    FieldNumber(r, h, key, p);
    LengthFound(r[..h], key, p);
    hide Find, FindChar, Stoul, ContentLength, Fields, ValueText, HeaderEnd, LastField, Terminated;
  }

  /** Where the session finds no key, the line parser has no field. */
  lemma NothingAnnounced(r: string, h: nat, field: string)
    requires HeaderEnd(r) == Some(h) && (field == KEY || field == LOWER_KEY)
    requires Find(r[..h], KEY, 0).None? && Find(r[..h], LOWER_KEY, 0).None?
    ensures |field| == 15 && field[..14] !in Fields(r) && ContentLength(r[..h]) == Some(0)
  {
    NoLengthFound(r[..h]);
    KeyName(field);
    var q := FieldPresent(r, field);
    hide HeaderEnd, BodyStart, ContentLength, Fields, OccursAt;
    if q.Some? {
      KeyInside(r, h, field, q.value);
    }
  }

  /** So what follows the headers is as long as the field says exactly then. */
  lemma BodyHasAnnouncedLength(r: string, h: nat, key: string, p: nat, field: string, q: nat)
    requires Framed(r) && HeaderEnd(r) == Some(h) && FoundAt(r[..h], key, p)
    requires (field == KEY || field == LOWER_KEY) && LastField(r, field, q)
    ensures |field| == 15 && field[..14] in Fields(r)
    ensures Stoul(Fields(r)[field[..14]]) == Some(|r| - h - Separator(Contains(r, CRLFCRLF))) <==> SameLength(r[..h], p, q)
  {
    hide *;
    var n := FramedBehind(r, h);
    LengthsAgree(r, h, key, p, field, q);
  }

  lemma FramedBehind(r: string, h: nat) returns (n: int)
    requires Framed(r) && HeaderEnd(r) == Some(h)
    ensures n == |r| - h - Separator(Contains(r, CRLFCRLF)) && n >= 0 && ContentLength(r[..h]) == Some(n)
  {
    n := |r| - h - Separator(Contains(r, CRLFCRLF));
    hide Find, ContentLength, HeadersFound, LfWaits, HeaderEnd, Contains;
  }

  // ------------------------------------------------------------------ where they do not

  const TWO_LENGTHS := "POST / HTTP/1.1\r" + "\n" + "X-Content-Length: 3\r" + "\n" + "Content-Length: 5\r" + "\n" + "Host: h"

  /** The session takes the key inside another header's name: it hands over three of the five
      bytes that the line parser's field announces. */
  lemma LengthsDisagree()
    ensures var head := TWO_LENGTHS + CRLFCRLF;
            && Judge(head + "hello") == Dispatch(head + "hel")
            && "Content-Length" in Fields(head + "hel") && Stoul(Fields(head + "hel")["Content-Length"]) == Some(5)
  {
    var head := TWO_LENGTHS + CRLFCRLF;
    TwoLengthsEnd(head + "hello", "hello");
    TwoLengthsEnd(head + "hel", "hel");
    TwoLengthsParts(head + "hello");
    TwoLengthsFirst();
    hide *;
    ThreeTaken(head + "hello", head + "hel");
    TwoLengthsField(head + "hel");
  }

  lemma ThreeTaken(r: string, whole: string)
    requires HeadersFound(r, 64, true) && |r| == 73 && r[..64] == TWO_LENGTHS && r[..71] == whole
    requires ContentLength(TWO_LENGTHS) == Some(3)
    ensures Judge(r) == Dispatch(whole)
  {
    hide TWO_LENGTHS, HeadersFound, ContentLength, Judge;
    JudgedBy(r, 64, true, TWO_LENGTHS);
  }

  lemma TwoLengthsParts(r: string)
    requires r == TWO_LENGTHS + CRLFCRLF + "hello"
    ensures |r| == 73 && r[..64] == TWO_LENGTHS && r[..71] == TWO_LENGTHS + CRLFCRLF + "hel"
  {
  }

  /** Four lines, and where their characters stand in the text. */
  lemma FourLines(a: string, b: string, c: string, d: string, s: string)
    requires s == a + "\n" + b + "\n" + c + "\n" + d
    ensures var i, j, k := |a| + 1, |a| + |b| + 2, |a| + |b| + |c| + 3;
            && |s| == k + |d| && s[i - 1] == '\n' && s[j - 1] == '\n' && s[k - 1] == '\n'
            && (forall n :: 0 <= n < i - 1 ==> s[n] == a[n])
            && (forall n :: i <= n < j - 1 ==> s[n] == b[n - i])
            && (forall n :: j <= n < k - 1 ==> s[n] == c[n - j])
            && (forall n :: k <= n < |s| ==> s[n] == d[n - k])
  {
  }

  lemma FirstChars(a: string, d: string)
    requires a == "POST / HTTP/1.1\r" && d == "Host: h"
    ensures forall n :: 0 <= n < |a| ==> a[n] != '\n' && a[n] != 'C'
    ensures forall n :: 0 <= n < |d| ==> d[n] != '\n' && d[n] != 'C'
    ensures |a| == 16 && |d| == 7
  {
    forall n | 0 <= n < |a|
      ensures a[n] != '\n' && a[n] != 'C'
    {
    }
    forall n | 0 <= n < |d|
      ensures d[n] != '\n' && d[n] != 'C'
    {
    }
  }

  lemma KeyLineChars(b: string, c: string)
    requires b == "X-Content-Length: 3\r" && c == "Content-Length: 5\r"
    ensures forall n :: 0 <= n < |b| ==> b[n] != '\n' && (b[n] == 'C' ==> n == 2)
    ensures forall n :: 0 <= n < |c| ==> c[n] != '\n' && (c[n] == 'C' ==> n == 0)
    ensures |b| == 20 && |c| == 18
  {
    forall n | 0 <= n < |b|
      ensures b[n] != '\n' && (b[n] == 'C' ==> n == 2)
    {
    }
    forall n | 0 <= n < |c|
      ensures c[n] != '\n' && (c[n] == 'C' ==> n == 0)
    {
    }
  }

  lemma TwoLengthsLines(head: string)
    requires head == TWO_LENGTHS
    ensures |head| == 64
    ensures forall i :: 0 <= i < 64 ==> (head[i] == '\n' <==> i == 16 || i == 37 || i == 56)
    ensures forall i :: 0 <= i < 64 && head[i] == 'C' ==> i == 19 || i == 38
    ensures head[17] == 'X' && head[38] == 'C' && head[57] == 'H'
  {
    var a, b, c, d := "POST / HTTP/1.1\r", "X-Content-Length: 3\r", "Content-Length: 5\r", "Host: h";
    FirstChars(a, d);
    KeyLineChars(b, c);
    assert b[0] == 'X' && c[0] == 'C' && d[0] == 'H';
    hide TWO_LENGTHS;
    FourLines(a, b, c, d, head);
  }

  lemma TwoLengthsEnd(r: string, body: string)
    requires r == TWO_LENGTHS + CRLFCRLF + body
    ensures HeadersFound(r, 64, true) && HeaderEnd(r) == Some(64) && r[..64] == TWO_LENGTHS && BodyStart(r) == 68
  {
    TwoLengthsLines(TWO_LENGTHS);
    HeadThenBody(TWO_LENGTHS, body);
    TwoLengthsFirstLine(r, body);
    TwoLengthsBlank(r, body);
    assert r[..64] == TWO_LENGTHS;
    hide TWO_LENGTHS, BeginsWithMethod, BodyStart, NoEarlierBlank, Contains;
    ParsersAgree(r, 64);
    EndIsFound(r, 64);
  }

  lemma TwoLengthsBlank(r: string, body: string)
    requires r == TWO_LENGTHS + CRLFCRLF + body
    ensures NoEarlierBlank(r, 64)
  {
    TwoLengthsLines(TWO_LENGTHS);
    assert forall i :: 0 <= i < 64 ==> r[i] == TWO_LENGTHS[i];
    assert r[64] == CRLFCRLF[0] == '\r';
    hide TWO_LENGTHS;
    forall i: nat | i <= 64
      ensures !BlankAfter(r, i)
    {
      BlankChars(r, i + 1);
    }
  }

  lemma TwoLengthsFirstLine(r: string, body: string)
    requires r == TWO_LENGTHS + CRLFCRLF + body
    ensures BeginsWithMethod(r)
  {
    var a := "POST / HTTP/1.1\r";
    var rest := "\n" + "X-Content-Length: 3\r" + "\n" + "Content-Length: 5\r" + "\n" + "Host: h";
    assert a[..5] == "POST ";
    assert TWO_LENGTHS == a + rest;
    hide BeginsWithMethod, TWO_LENGTHS;
    PostFirst(a, rest + (CRLFCRLF + body));
    assert r == a + (rest + (CRLFCRLF + body));
  }

  lemma TwoLengthsFirst()
    ensures ContentLength(TWO_LENGTHS) == Some(3)
  {
    TwoLengthsLines(TWO_LENGTHS);
    TwoLengthsKeys(TWO_LENGTHS);
    NumberBetween(TWO_LENGTHS, 19, 37, '3');
    hide *;
    LengthFound(TWO_LENGTHS, KEY, 19);
  }

  lemma TwoLengthsKeys(head: string)
    requires head == TWO_LENGTHS
    ensures FoundAt(head, KEY, 19) && OccursAt(head, KEY, 38)
  {
    TwoLengthsLines(head);
    assert KEY == "Content-Length:" && KEY[0] == 'C';
    TwoLengthsSlices(head);
    hide TWO_LENGTHS;
    forall j: nat | j < 19
      ensures !OccursAt(head, KEY, j)
    {
      assert head[j] != 'C' && head[j..j + 15][0] == head[j];
    }
    FindIs(head, KEY, 0, 19);
  }

  lemma TwoLengthsSlices(head: string)
    requires head == TWO_LENGTHS
    ensures |head| == 64 && head[19..34] == "Content-Length:" && head[38..53] == "Content-Length:"
    ensures head[34] == ' ' && head[35] == '3' && head[36] == '\r' && head[53] == ' ' && head[54] == '5' && head[55] == '\r'
  {
    var a, b, c, d := "POST / HTTP/1.1\r", "X-Content-Length: 3\r", "Content-Length: 5\r", "Host: h";
    assert b[2..17] == "Content-Length:" && c[..15] == "Content-Length:";
    assert b[17] == ' ' && b[18] == '3' && b[19] == '\r' && c[15] == ' ' && c[16] == '5' && c[17] == '\r';
    assert |a| == 16 && |b| == 20 && |c| == 18 && |d| == 7;
    hide TWO_LENGTHS;
    LineSlices(a, b, c, d, head);
  }

  lemma LineSlices(a: string, b: string, c: string, d: string, head: string)
    requires head == a + "\n" + b + "\n" + c + "\n" + d && |a| == 16 && |b| == 20 && |c| == 18 && |d| == 7
    ensures |head| == 64 && head[19..34] == b[2..17] && head[38..53] == c[..15]
    ensures head[34..37] == b[17..20] && head[53..56] == c[15..18]
    ensures head[34] == b[17] && head[35] == b[18] && head[36] == b[19]
    ensures head[53] == c[15] && head[54] == c[16] && head[55] == c[17]
  {
  }

  /** A digit between a space and the carriage return of its line. */
  lemma NumberBetween(head: string, p: nat, e: nat, c: char)
    requires e == p + 18 < |head| && '0' <= c <= '9' && head == TWO_LENGTHS && (p == 19 || p == 38)
    requires c == if p == 19 then '3' else '5'
    ensures Terminated(head, p) && Stoul(ValueText(head, p)) == Some(c as int - '0' as int)
  {
    TwoLengthsLines(head);
    TwoLengthsSlices(head);
    FindCharIs(head, '\n', p + 15, e);
    assert head[p + 15..e] == " " + ([c] + "\r");
    hide TWO_LENGTHS;
    OneDigit(c);
  }

  lemma OneDigit(c: char)
    requires '0' <= c <= '9'
    ensures Stoul(" " + ([c] + "\r")) == Some(c as int - '0' as int)
  {
    var t := [c] + "\r";
    assert (" " + t)[1..] == t && t[1..] == "\r";
    assert DigitsValue(t, 0) == DigitsValue("\r", c as int - '0' as int);
  }

  lemma TwoLengthsField(r: string)
    requires r == TWO_LENGTHS + CRLFCRLF + "hel"
    ensures "Content-Length" in Fields(r) && Stoul(Fields(r)["Content-Length"]) == Some(5)
  {
    TwoLengthsEnd(r, "hel");
    LastOfTwo(r);
    TwoLengthsLines(TWO_LENGTHS);
    NumberBetween(TWO_LENGTHS, 38, 56, '5');
    KeyText();
    hide *;
    FieldNumber(r, 64, KEY, 38);
  }

  lemma KeyText()
    ensures KEY[..14] == "Content-Length" && |KEY| == 15
  {
  }

  lemma LastOfTwo(r: string)
    requires r == TWO_LENGTHS + CRLFCRLF + "hel" && BodyStart(r) == 68
    ensures LastField(r, KEY, 38)
  {
    TwoLengthsKeys(TWO_LENGTHS);
    NoLaterC(r);
    OccursInPrefix(r, 64, KEY, 38);
    assert KEY[0] == 'C' && |KEY| == 15;
    hide BodyStart, TWO_LENGTHS;
    forall q' | 38 < q' < 68
      ensures !OccursAt(r, KEY, q')
    {
      assert q' + 15 <= |r| ==> r[q'..q' + 15][0] == r[q'];
    }
  }

  lemma NoLaterC(r: string)
    requires r == TWO_LENGTHS + CRLFCRLF + "hel"
    ensures r[..64] == TWO_LENGTHS && r[37] == '\n' && forall i :: 38 < i < 68 ==> r[i] != 'C'
    ensures |r| == 71
  {
    TwoLengthsLines(TWO_LENGTHS);
    var e := "\r\n\r\n";
    assert forall i :: 0 <= i < 64 ==> r[i] == TWO_LENGTHS[i];
    assert r[64..68] == e && forall i :: 0 <= i < 4 ==> r[64 + i] == e[i];
    assert forall i :: 64 <= i < 68 ==> r[i] == e[i - 64];
    hide TWO_LENGTHS;
  }
}
