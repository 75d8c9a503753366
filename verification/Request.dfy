/** The request parser: a second, line-oriented reading of the bytes the session framed. */
module Request {
  import opened Wrappers
  import opened Sequences
  import opened Text
  import opened Session

  /** getline: the line at `pos`, without its line feed, and where the next one begins.
      Nothing is left once the whole text has been read. */
  function GetLine(s: string, pos: nat): Option<(string, nat)>
    requires pos <= |s|
    ensures GetLine(s, pos).Some? ==> pos < GetLine(s, pos).value.1 <= |s|
  {
    if pos == |s| then None
    else match FindChar(s, '\n', pos)
      case Some(i) => Some((s[pos..i], i + 1))
      case None => Some((s[pos..], |s|))
  }

  function DropReturn(line: string): string {
    if line != "" && line[|line| - 1] == '\r' then line[..|line| - 1] else line
  }

  predicate IsSpace(c: char) {
    c == ' ' || (9 as char <= c <= 13 as char)
  }

  function SkipSpace(s: string): string {
    if s != "" && IsSpace(s[0]) then SkipSpace(s[1..]) else s
  }

  function AddHeader(headers: map<string, string>, line: string): map<string, string> {
    match FindChar(line, ':', 0)
    case Some(i) => headers[line[..i] := SkipSpace(line[i + 1..])]
    case None => headers
  }

  /** The headers read from `pos` on, and where the body begins. */
  function ReadHeaders(s: string, pos: nat, headers: map<string, string>): (r: (map<string, string>, nat))
    requires pos <= |s|
    ensures pos <= r.1 <= |s|
    decreases |s| - pos
  {
    match GetLine(s, pos)
    case None => (headers, |s|)
    case Some((line, next)) =>
      if DropReturn(line) == "" then (headers, next)
      else ReadHeaders(s, next, AddHeader(headers, DropReturn(line)))
  }

  /** Every remaining line with a line feed after it. */
  function ReadBody(s: string, pos: nat): string
    requires pos <= |s|
    decreases |s| - pos
  {
    match GetLine(s, pos)
    case None => ""
    case Some((line, next)) => line + "\n" + ReadBody(s, next)
  }

  /** `s` without its last character when that is a line feed. */
  function DropLineFeed(s: string): string {
    if s != "" && s[|s| - 1] == '\n' then s[..|s| - 1] else s
  }

  /** Where the lines after the first one begin. */
  function AfterFirstLine(s: string): (r: nat)
    ensures r <= |s|
  {
    match GetLine(s, 0)
    case None => 0
    case Some((line, next)) => next
  }

  function BodyStart(s: string): (r: nat)
    ensures r <= |s|
  {
    ReadHeaders(s, AfterFirstLine(s), map[]).1
  }

  function Body(s: string): string {
    DropLineFeed(ReadBody(s, BodyStart(s)))
  }

  // ----------------------------------------------------------------------- what body() is

  /** The lines of the body put together again: the text, closed with a line feed. */
  lemma {:induction false} ReadBodyText(s: string, pos: nat)
    requires pos <= |s|
    ensures ReadBody(s, pos) == if pos == |s| || s[|s| - 1] == '\n' then s[pos..] else s[pos..] + "\n"
    decreases |s| - pos
  {
    if pos < |s| {
      var (line, next) := GetLine(s, pos).value;
      ReadBodyText(s, next);
      OneLine(s, pos);
      hide GetLine;
      if next == |s| {
        assert ReadBody(s, next) == "";
        assert line + "\n" + "" == line + "\n";
      } else if s[|s| - 1] != '\n' {
        assert line + "\n" + (s[next..] + "\n") == line + "\n" + s[next..] + "\n";
      }
    }
  }

  /** The line that is read and what is left are the text, but for the line feed that a last line
      may lack. */
  lemma OneLine(s: string, pos: nat)
    requires pos < |s|
    ensures var (line, next) := GetLine(s, pos).value;
            && (next < |s| || s[|s| - 1] == '\n' ==> s[pos..] == line + "\n" + s[next..])
            && (next == |s| && s[|s| - 1] == '\n' ==> s[pos..] == line + "\n")
            && (next == |s| && s[|s| - 1] != '\n' ==> s[pos..] == line)
  {
    var k := FindChar(s, '\n', pos);
    hide FindChar;
    if k.Some? {
      assert s[pos..] == s[pos..k.value] + "\n" + s[k.value + 1..];
      assert k.value + 1 == |s| ==> s[pos..] == s[pos..k.value] + "\n";
    }
  }

  /** body() is everything from the body's start on, less one trailing line feed. */
  lemma BodyText(s: string)
    ensures Body(s) == DropLineFeed(s[BodyStart(s)..])
  {
    var pos := BodyStart(s);
    var rest := s[pos..];
    ReadBodyText(s, pos);
    if pos < |s| && s[|s| - 1] != '\n' {
      assert (rest + "\n")[..|rest|] == rest;
      assert rest[|rest| - 1] == s[|s| - 1];
    }
  }

  // ------------------------------------------------------------------- where the body begins

  /** A line feed followed by an empty line, with or without a carriage return. */
  predicate BlankAfter(s: string, i: nat) {
    && i < |s| && s[i] == '\n'
    && (OccursAt(s, "\n", i + 1) || OccursAt(s, "\r\n", i + 1))
  }

  /** The end of that empty line. */
  function BlankEnd(s: string, i: nat): nat {
    if OccursAt(s, "\n", i + 1) then i + 2 else i + 3
  }

  lemma BlankChars(s: string, i: nat)
    ensures OccursAt(s, "\n", i) <==> i < |s| && s[i] == '\n'
    ensures OccursAt(s, "\r\n", i) <==> i + 1 < |s| && s[i] == '\r' && s[i + 1] == '\n'
  {
    if i < |s| {
      assert s[i..i + 1] == [s[i]];
    }
    if i + 1 < |s| {
      assert s[i..i + 2] == [s[i], s[i + 1]];
    }
  }

  lemma DropReturnEmpty(line: string)
    ensures DropReturn(line) == "" <==> line == "" || line == "\r"
  {
    if DropReturn(line) == "" && line != "" {
      assert line == [line[0]];
    }
  }

  /** The header loop stops at the first blank line. */
  lemma {:induction false} HeadersStop(s: string, pos: nat, i: nat, headers: map<string, string>)
    requires 0 < pos <= i + 1 <= |s| && s[pos - 1] == '\n' && BlankAfter(s, i)
    requires forall j: nat :: pos - 1 <= j < i ==> !BlankAfter(s, j)
    ensures ReadHeaders(s, pos, headers).1 == BlankEnd(s, i)
    decreases |s| - pos
  {
    BlankChars(s, i + 1);
    BlankChars(s, pos);
    assert pos < |s|;
    var k := FindChar(s, '\n', pos);
    assert k.Some?;
    var (line, next) := GetLine(s, pos).value;
    if pos == i + 1 {
      assert DropReturn(line) == "";
    } else {
      assert !BlankAfter(s, pos - 1);
      DropReturnEmpty(line);
      assert line != "" && line != "\r";
      assert k.value <= i;
      HeadersStop(s, next, i, AddHeader(headers, DropReturn(line)));
    }
  }

  /** The body begins after the first line feed that an empty line follows. */
  lemma BodyStartIs(s: string, i: nat)
    requires BlankAfter(s, i) && forall j: nat :: j < i ==> !BlankAfter(s, j)
    ensures BodyStart(s) == BlankEnd(s, i)
  {
    var k := FindChar(s, '\n', 0);
    assert k.Some? && k.value <= i;
    HeadersStop(s, k.value + 1, i, map[]);
  }

  lemma FirstBlank(s: string, i: nat) returns (first: nat)
    requires BlankAfter(s, i)
    ensures first <= i && BlankAfter(s, first) && forall j: nat :: j < first ==> !BlankAfter(s, j)
  {
    first := 0;
    while !BlankAfter(s, first)
      invariant first <= i && forall j: nat :: j < first ==> !BlankAfter(s, j)
      decreases i - first
    {
      first := first + 1;
    }
  }

  /** No blank line ends before the CRLFCRLF at `h`. */
  predicate NoEarlierBlank(s: string, h: nat) {
    forall i: nat :: i <= h ==> !BlankAfter(s, i)
  }

  /** The parser and the session put the body at the same place exactly when no other kind
      of blank line (LFLF, or a bare LF before CRLF) comes before the session's CRLFCRLF. */
  lemma ParsersAgree(s: string, h: nat)
    requires Find(s, CRLFCRLF, 0) == Some(h)
    ensures BodyStart(s) == h + 4 <==> NoEarlierBlank(s, h)
  {
    assert s[h..h + 4] == CRLFCRLF;
    assert s[h + 1] == s[h..h + 4][1] && s[h + 2] == s[h..h + 4][2] && s[h + 3] == s[h..h + 4][3];
    BlankChars(s, h + 2);
    assert BlankAfter(s, h + 1) && BlankEnd(s, h + 1) == h + 4;
    var first := FirstBlank(s, h + 1);
    BodyStartIs(s, first);
  }

  /** Where there is no CRLFCRLF the session frames by LFLF; they agree exactly when the first
      blank line is that one. */
  lemma ParsersAgreeOnLf(s: string, g: nat)
    requires Find(s, CRLFCRLF, 0).None? && Find(s, LFLF, 0) == Some(g)
    ensures BodyStart(s) == g + 2 <==> forall i: nat :: i < g ==> !BlankAfter(s, i)
  {
    assert s[g..g + 2] == LFLF;
    assert s[g] == s[g..g + 2][0] && s[g + 1] == s[g..g + 2][1];
    BlankChars(s, g + 1);
    assert BlankAfter(s, g) && BlankEnd(s, g) == g + 2;
    var first := FirstBlank(s, g);
    BodyStartIs(s, first);
    BlankChars(s, first + 1);
  }

  /** Every line feed of the header block follows a carriage return. */
  predicate ReturnsBeforeFeeds(s: string, h: nat) {
    forall i :: 0 <= i < h && i < |s| && s[i] == '\n' ==> i > 0 && s[i - 1] == '\r'
  }

  lemma FourChars(s: string, i: nat)
    ensures OccursAt(s, CRLFCRLF, i) <==>
            i + 3 < |s| && s[i] == '\r' && s[i + 1] == '\n' && s[i + 2] == '\r' && s[i + 3] == '\n'
  {
    if i + 3 < |s| {
      assert s[i..i + 4] == [s[i], s[i + 1], s[i + 2], s[i + 3]];
    }
  }

  lemma NotBlankBefore(s: string, h: nat, i: nat)
    requires Find(s, CRLFCRLF, 0) == Some(h) && ReturnsBeforeFeeds(s, h) && i <= h
    ensures !BlankAfter(s, i)
  {
    BlankChars(s, i + 1);
    assert s[h..h + 4] == CRLFCRLF;
    assert s[h] == s[h..h + 4][0] && s[h + 1] == s[h..h + 4][1];
    if s[i] == '\n' {
      assert i < h && s[i - 1] == '\r' && s[i + 1] != '\n';
      assert !OccursAt(s, CRLFCRLF, i - 1);
      FourChars(s, i - 1);
    }
  }

  /** In particular they agree on messages that use CRLF throughout the header block; the
      body is then the bytes after the headers, less one trailing line feed. */
  lemma ParsersAgreeOnCrlf(s: string, h: nat)
    requires Find(s, CRLFCRLF, 0) == Some(h) && ReturnsBeforeFeeds(s, h)
    ensures BodyStart(s) == h + 4
    ensures Body(s) == DropLineFeed(s[h + 4..])
  {
    forall i: nat | i <= h
      ensures !BlankAfter(s, i)
    {
      NotBlankBefore(s, h, i);
    }
    ParsersAgree(s, h);
    BodyText(s);
  }

  /** A well-framed request is dispatched whole, and its body is as many bytes as the session
      read for its length, less one trailing line feed. */
  lemma BodyOfWellFramed(r: string, h: nat)
    requires WellFramed(r, h) && NoEarlierBlank(r, h)
    ensures Judge(r) == Dispatch(r)
    ensures Body(r) == DropLineFeed(r[h + 4..]) && |r[h + 4..]| == ContentLength(r[..h]).value
  {
    PrefixWaits(r, h, |r|);
    assert r[..|r|] == r;
    ParsersAgree(r, h);
    BodyText(r);
  }

  // -------------------------------------------------------------------------- the request

  function TakeWord(s: string): string {
    if s != "" && !IsSpace(s[0]) then [s[0]] + TakeWord(s[1..]) else ""
  }

  /** The next word of a line, and what follows it. */
  function NextWord(s: string): (string, string) {
    var t := SkipSpace(s);
    var w := TakeWord(t);
    TakeWordPrefix(t);
    (w, t[|w|..])
  }

  lemma {:induction false} TakeWordPrefix(s: string)
    ensures TakeWord(s) <= s
  {
    if s != "" && !IsSpace(s[0]) {
      TakeWordPrefix(s[1..]);
    }
  }

  /** The method, the URI and the version of the first line; empty where it has fewer
      words. */
  function RequestLine(s: string): (string, string, string) {
    match GetLine(s, 0)
    case None => ("", "", "")
    case Some((line, next)) =>
      var (m, afterMethod) := NextWord(DropReturn(line));
      var (u, afterUri) := NextWord(afterMethod);
      (m, u, NextWord(afterUri).0)
  }

  class Request {
    const raw: string
    var method_: string
    var uri: string
    var version: string
    var headers: map<string, string>
    var body: string

    /** What parsing leaves in the fields. */
    ghost predicate Parsed()
      reads this
    {
      && (method_, uri, version) == RequestLine(raw)
      && headers == ReadHeaders(raw, AfterFirstLine(raw), map[]).0
      && body == Body(raw)
    }

    /** The constructor parses at once. */
    constructor (rawRequest: string)
      ensures raw == rawRequest && Parsed()
    {
      raw := rawRequest;
      method_, uri, version, headers, body := "", "", "", map[], "";
      new;
      ParseRequest();
    }

    /** parse_request */
    method ParseRequest()
      requires method_ == uri == version == body == "" && headers == map[]
      modifies this
      ensures Parsed()
    {
      hide NextWord, ReadHeaders, ReadBody, DropReturn;
      var pos := 0;
      var line := GetLine(raw, pos);
      if line.Some? {
        var rest := DropReturn(line.value.0);
        pos := line.value.1;
        var (m, afterMethod) := NextWord(rest);
        var (u, afterUri) := NextWord(afterMethod);
        method_, uri, version := m, u, NextWord(afterUri).0;
      }
      assert pos == AfterFirstLine(raw);
      pos := ParseHeaders(pos);
      var text := JoinLines(raw, pos);
      if text != "" && text[|text| - 1] == '\n' {
        text := text[..|text| - 1];
      }
      body := text;
    }

    /** The header loop; returns where the body begins. */
    method ParseHeaders(start: nat) returns (pos: nat)
      requires start <= |raw|
      modifies `headers
      ensures (headers, pos) == ReadHeaders(raw, start, old(headers)) && pos <= |raw|
    {
      hide GetLine, FindChar, SkipSpace;
      pos := start;
      var line := GetLine(raw, pos);
      while line.Some? && line.value.0 != ""
        invariant pos <= |raw| && line == GetLine(raw, pos)
        invariant ReadHeaders(raw, pos, headers) == ReadHeaders(raw, start, old(headers))
        decreases |raw| - pos
      {
        var text := DropReturn(line.value.0);
        pos := line.value.1;
        if text == "" {
          return;
        }
        var colon := FindChar(text, ':', 0);
        if colon.Some? {
          headers := headers[text[..colon.value] := SkipSpace(text[colon.value + 1..])];
        }
        line := GetLine(raw, pos);
      }
      pos := if line.Some? then line.value.1 else |raw|;
    }
  }

  /** The loop that copies the remaining lines. */
  method JoinLines(s: string, start: nat) returns (text: string)
    requires start <= |s|
    ensures text == ReadBody(s, start)
  {
    text := "";
    var pos := start;
    var line := GetLine(s, pos);
    while line.Some?
      invariant pos <= |s| && line == GetLine(s, pos)
      invariant text + ReadBody(s, pos) == ReadBody(s, start)
      decreases |s| - pos
    {
      Regroup(text, line.value.0 + "\n", ReadBody(s, line.value.1), "");
      text := text + (line.value.0 + "\n");
      pos := line.value.1;
      line := GetLine(s, pos);
    }
  }
}
