/** Multipart bodies whose lines end in a bare line feed, which the scanner also takes; and what its
    trimming and its limits amount to. */
module MultipartLf {
  import opened Wrappers
  import opened Sequences
  import opened Text
  import opened Multipart

  // --------------------------------------------------------------------- trimming and limits

  predicate IsWhite(c: char) {
    c == ' ' || c == '\t' || c == '\r' || c == '\n'
  }

  /** What is trimmed off is white space, all of it. */
  lemma TrimIs(s: string) returns (front: string, back: string)
    ensures s == front + Trim(s) + back
    ensures (forall c :: c in front ==> IsWhite(c)) && (forall c :: c in back ==> IsWhite(c))
    ensures Trim(s) != "" ==> !IsWhite(Trim(s)[0]) && !IsWhite(Trim(s)[|Trim(s)| - 1])
  {
    front := TrimStartIs(s);
    var t := TrimStart(s);
    back := TrimEndIs(t);
    assert t == TrimEnd(t) + back;
    assert TrimEnd(t) != "" ==> TrimEnd(t)[0] == t[0];
    assert s == front + (TrimEnd(t) + back);
  }

  lemma {:induction false} TrimStartIs(s: string) returns (front: string)
    ensures s == front + TrimStart(s) && forall c :: c in front ==> IsWhite(c)
    ensures TrimStart(s) != "" ==> !IsWhite(TrimStart(s)[0])
    decreases |s|
  {
    front := "";
    if s != "" && IsTrimmed(s[0]) {
      var more := TrimStartIs(s[1..]);
      front := [s[0]] + more;
      assert s == [s[0]] + s[1..];
    }
  }

  lemma {:induction false} TrimEndIs(s: string) returns (back: string)
    ensures s == TrimEnd(s) + back && forall c :: c in back ==> IsWhite(c)
    ensures TrimEnd(s) != "" ==> !IsWhite(TrimEnd(s)[|TrimEnd(s)| - 1])
    decreases |s|
  {
    back := "";
    if s != "" && IsTrimmed(s[|s| - 1]) {
      var shorter := s[..|s| - 1];
      var more := TrimEndIs(shorter);
      back := more + [s[|s| - 1]];
      assert s == shorter + [s[|s| - 1]];
    }
  }

  /** A part leaves nothing exactly when it has no name or is larger than 25 MiB as a file, or than
      1 MiB as a field. */
  lemma DroppedPart(p: Part)
    ensures At(Seen(NOTHING, p), p.name) == ABSENT <==>
            p.name == "" || |Content(p)| > if SeenFilename(p) != "" then 26214400 else 1048576
  {
    hide SeenFilename, SeenType;
  }

  // ------------------------------------------------------------------------ bare line feeds

  /** The header block, without the line feed behind it. */
  function HeaderLines(p: Part): string {
    DispositionLine(p) + TypeText(p)
  }

  /** The line behind the disposition line, for a file. */
  function TypeText(p: Part): string {
    if p.File? then "\n" + (TYPE + p.contentType) else ""
  }

  function PartLines(p: Part): string {
    "\n" + (HeaderLines(p) + "\n\n" + (Content(p) + "\n"))
  }

  function PartsLines(ps: seq<Part>, delimiter: string): string {
    if ps == [] then "--\n" else PartLines(ps[0]) + delimiter + PartsLines(ps[1..], delimiter)
  }

  function SerializeLines(ps: seq<Part>, boundary: string): string {
    "--" + boundary + PartsLines(ps, "--" + boundary)
  }

  /** Contents that do not end in a carriage return, which would go with the line feed. */
  predicate SendableLines(p: Part, delimiter: string) {
    Sendable(p, delimiter) && (Content(p) != "" ==> Content(p)[|Content(p)| - 1] != '\r')
  }

  lemma FirstLineOf(line: string, more: string)
    requires NoLineEnd(line)
    ensures FirstLine(line + ("\n" + more)) == line && FirstLine(line) == line
  {
    var s, n := line + ("\n" + more), |line|;
    assert s[n] == '\n' && forall j :: 0 <= j < n ==> s[j] == line[j];
    FindCharIs(s, '\n', 0, n);
    FindCharNone(line, '\n', 0);
    assert s[..n] == line;
  }

  lemma DispositionIs(p: Part, delimiter: string)
    requires Sendable(p, delimiter)
    ensures Disposition(HeaderLines(p)) == DispositionLine(p)
  {
    LineIsClean(p, delimiter);
    var line, s := DispositionLine(p), HeaderLines(p);
    assert s[0..20] == line[..20];
    hide DispositionLine, Sendable, FirstLine;
    FindIs(s, "Content-Disposition:", 0, 0);
    assert s[0..] == s;
    if p.File? {
      FirstLineOf(line, TYPE + p.contentType);
    } else {
      FirstLineOf(line, "");
      assert s == line;
    }
  }

  lemma TypeBehindFeed(contentType: string)
    ensures After("\n" + (TYPE + contentType), TYPE_KEY) == Some(" " + contentType)
  {
    var s, r := "\n" + (TYPE + contentType), " " + contentType;
    assert TYPE == TYPE_KEY + " ";
    assert s == "\n" + (TYPE_KEY + r);
    FilenameShape();
    assert TYPE_KEY[0] == 'C' && s[0] == '\n';
    assert s[1..14] == TYPE_KEY && s[14..] == r;
    NotAt(s, TYPE_KEY, 0, 0);
    FindIs(s, TYPE_KEY, 0, 1);
  }

  /** The line on which a name with a keyword stands. */
  lemma RestOfLine(v: string, behind: string, more: string)
    requires NoLineEnd(v) && NoLineEnd(behind) && (more == "" || more[0] == '\n')
    ensures FirstLine(v + "\"" + (behind + more)) == v + "\"" + behind
  {
    var line := v + "\"" + behind;
    hide FirstLine;
    FirstLineOf(line, if more == "" then "" else more[1..]);
    if more == "" {
      assert v + "\"" + (behind + more) == line;
    } else {
      assert v + "\"" + (behind + more) == line + ("\n" + more[1..]);
    }
  }

  lemma TypeIs(p: Part, delimiter: string)
    requires Sendable(p, delimiter)
    ensures ContentType(HeaderLines(p)) == SeenType(p)
  {
    var more := TypeText(p);
    AfterNameLines(p, more);
    hide Trim, FirstLine, NoQuote, Contains;
    match After(p.name, TYPE_KEY)
    case Some(v) => NameHoldsType(p, delimiter, v, more);
    case None =>
      if p.File? {
        FileTypeIs(p, delimiter, more);
      } else {
        assert BehindName(p) + more == "";
        FindNone("", TYPE_KEY, 0);
      }
  }

  lemma NameHoldsType(p: Part, delimiter: string, v: string, more: string)
    requires Sendable(p, delimiter) && After(p.name, TYPE_KEY) == Some(v) && more == TypeText(p)
    ensures FirstLine(v + "\"" + (BehindName(p) + more)) == v + "\"" + BehindName(p)
  {
    NamesAreClean(p, delimiter);
    ValueIsClean(p.name, v);
    assert more == "" || more[0] == '\n';
    hide *;
    RestOfLine(v, BehindName(p), more);
  }

  lemma ValueIsClean(name: string, v: string)
    requires NoLineEnd(name) && After(name, TYPE_KEY) == Some(v)
    ensures NoLineEnd(v)
  {
    hide Find;
    var i := |name| - |v|;
    forall j | 0 <= j < |v|
      ensures v[j] == name[i + j]
    {
    }
  }

  lemma AfterNameLines(p: Part, more: string)
    requires more == TypeText(p)
    ensures var r := BehindName(p) + more;
            After(HeaderLines(p), TYPE_KEY) ==
            match After(p.name, TYPE_KEY) case Some(v) => Some(v + "\"" + r) case None => After(r, TYPE_KEY)
  {
    PrefixWithoutKeywords();
    FilenameShape();
    hide *;
    HeaderLinesParts(p);
    AfterQuoted(NAME_PREFIX, p.name, BehindName(p) + more, TYPE_KEY);
  }

  lemma HeaderLinesParts(p: Part)
    ensures HeaderLines(p) == NAME_PREFIX + Quote(p.name) + (BehindName(p) + TypeText(p))
  {
    hide Quote, BehindName, TypeText;
    Regroup(NAME_PREFIX + Quote(p.name), BehindName(p), TypeText(p), "");
  }

  lemma FileTypeIs(p: Part, delimiter: string, more: string)
    requires Sendable(p, delimiter) && p.File? && After(p.name, TYPE_KEY).None? && more == TypeText(p)
    ensures var r := After(BehindName(p) + more, TYPE_KEY); r.Some? && Trim(FirstLine(r.value)) == SeenType(p)
  {
    NoTypeInLineEnd();
    FilenameShape();
    AfterQuoted(FILENAME, p.filename, more, TYPE_KEY);
    hide Trim, FirstLine, NoQuote, Contains;
    match After(p.filename, TYPE_KEY)
    case Some(v) =>
      assert "" + more == more && v + "\"" + "" == v + "\"";
      RestOfLine(v, "", more);
    case None =>
      TypeBehindFeed(p.contentType);
      TypeAlone(p.contentType);
  }

  lemma TypeAlone(contentType: string)
    requires NoLineEnd(contentType)
    ensures Trim(FirstLine(" " + contentType)) == Trim(contentType)
  {
    var line := " " + contentType;
    assert NoLineEnd(line);
    hide Trim, FirstLine, NoLineEnd;
    FirstLineOf(line, "");
    TrimReturn(contentType, "");
    assert line + "" == line;
  }

  lemma StoreLines(acc: Parsed, p: Part, delimiter: string)
    requires Sendable(p, delimiter)
    ensures StorePart(acc, HeaderLines(p), Content(p)) == Seen(acc, p)
  {
    DispositionIs(p, delimiter);
    var r := BehindName(p) + "";
    assert DispositionLine(p) == NAME_PREFIX + Quote(p.name) + r;
    ReadName(p.name, r);
    ReadFilename(p, "");
    TypeIs(p, delimiter);
    hide Find, After, Disposition, ContentType, Parameter, HeaderLines, SeenFilename, SeenType, Store;
  }

  predicate SingleFeeds(h: string) {
    h != "" && h[|h| - 1] != '\n' && forall j :: 0 <= j < |h| - 1 ==> !(h[j] == '\n' && h[j + 1] == '\n')
  }

  /** The lines of a header block are not empty. */
  lemma OneFeed(p: Part, delimiter: string)
    requires Sendable(p, delimiter)
    ensures SingleFeeds(HeaderLines(p))
  {
    LineIsClean(p, delimiter);
    var line, h := DispositionLine(p), HeaderLines(p);
    hide DispositionLine, Contains;
    if p.File? {
      var t := TYPE + p.contentType;
      TypeLineChars(p.contentType);
      assert h == line + ("\n" + t);
      hide *;
      FeedBetween(line, t);
    } else {
      assert h == line;
    }
  }

  lemma FeedBetween(line: string, t: string)
    requires line != "" && t != ""
    requires (forall i :: 0 <= i < |line| ==> line[i] != '\n') && forall i :: 0 <= i < |t| ==> t[i] != '\n'
    ensures SingleFeeds(line + ("\n" + t))
  {
    var h := line + ("\n" + t);
    forall j | 0 <= j < |h| - 1
      ensures !(h[j] == '\n' && h[j + 1] == '\n')
    {
      assert j < |line| ==> h[j] == line[j];
      assert j > |line| ==> h[j] == t[j - |line| - 1];
      assert j == |line| ==> h[j + 1] == t[0];
    }
    assert h[|h| - 1] == t[|t| - 1];
  }

  lemma TypeLineChars(contentType: string)
    requires NoLineEnd(contentType)
    ensures var t := TYPE + contentType; t != "" && forall i :: 0 <= i < |t| ==> t[i] != '\n'
  {
    var t := TYPE + contentType;
    assert |TYPE| == 14;
    forall i | 0 <= i < |t|
      ensures t[i] != '\n'
    {
      TypeLineChar(contentType, i);
    }
  }

  lemma HeaderEnds(h: string, after: string)
    requires SingleFeeds(h)
    requires !Contains(h + "\n\n" + after, "\r\n\r\n")
    ensures HeaderLength(h + "\n\n" + after) == Some(|h| + 2)
  {
    var s, n := h + "\n\n" + after, |h|;
    assert s[n] == '\n' && s[n + 1] == '\n' && s[n..n + 2] == "\n\n" && forall j :: 0 <= j < n ==> s[j] == h[j];
    forall j: nat | j < n
      ensures !OccursAt(s, "\n\n", j)
    {
      if s[j] == '\n' {
        NotAt(s, "\n\n", j, 1);
      } else {
        NotAt(s, "\n\n", j, 0);
      }
    }
    FindIs(s, "\n\n", 0, n);
  }

  lemma FindBehindFeed(content: string, delimiter: string, rest: string)
    requires NoLineEnd(delimiter) && delimiter != "" && !Contains(content, delimiter)
    ensures Find(content + "\n" + (delimiter + rest), delimiter, 0) == Some(|content| + 1)
  {
    var n := |content|;
    var s := content + "\n" + (delimiter + rest);
    assert s[n] == '\n' && s[..n] == content;
    forall j: nat | j < n + 1
      ensures !OccursAt(s, delimiter, j)
    {
      if j + |delimiter| <= n {
        OccursInPrefix(s, n, delimiter, j);
      } else {
        NotAt(s, delimiter, j, n - j);
      }
    }
    assert s[n + 1..n + 1 + |delimiter|] == delimiter;
    FindIs(s, delimiter, 0, n + 1);
  }

  lemma DropFeed(content: string)
    requires content != "" ==> content[|content| - 1] != '\r'
    ensures DropLineEnd(content + "\n") == content
  {
    var c := content + "\n";
    assert c[..|c| - 1] == content;
    if |c| >= 2 {
      assert c[|c| - 2..][0] == content[|content| - 1];
    }
  }

  lemma Slices(h: string, c: string, d: string, rest: string)
    requires h != "" && h[0] != '\n' && h[0] != '\r'
    ensures var after := c + "\n" + (d + rest);
            var s1 := h + "\n\n" + after;
            && s1[|h| + 2..] == after && s1[..|h|] == h
            && after[..|c| + 1] == c + "\n" && after[|c| + 1..] == d + rest && after[|c| + 1 + |d|..] == rest
            && SkipLineEnd("\n" + s1) == s1
  {
    var after := c + "\n" + (d + rest);
    var s1 := h + "\n\n" + after;
    var s := "\n" + s1;
    assert s[0] == '\n' && s[1..] == s1;
    assert after[|c| + 1 + |d|..] == after[|c| + 1..][|d|..];
  }

  lemma LinesStart(p: Part)
    ensures HeaderLines(p) != "" && HeaderLines(p)[0] != '\n' && HeaderLines(p)[0] != '\r'
  {
    PrefixChar(0);
    assert HeaderLines(p)[0] == NAME_PREFIX[0];
  }

  /** One part and the delimiter after it, where no CRLFCRLF stands in the rest of the body. */
  lemma ScanLines(p: Part, delimiter: string, rest: string, acc: Parsed)
    requires SendableLines(p, delimiter) && NoLineEnd(delimiter) && delimiter != ""
    requires !Contains(PartLines(p) + delimiter + rest, "\r\n\r\n")
    ensures ScanParts(PartLines(p) + delimiter + rest, delimiter, acc) ==
            if StartsWith(delimiter + rest, delimiter + "--") then Seen(acc, p)
            else ScanParts(rest, delimiter, Seen(acc, p))
  {
    hide *;
    var h, c := HeaderLines(p), Content(p);
    var s1 := h + "\n\n" + (c + "\n" + (delimiter + rest));
    PartWhole(p, delimiter, rest, s1);
    NotBehind("\n", s1, "\r\n\r\n");
    ScanPart(p, h, c, s1, delimiter, rest, acc);
  }

  lemma ScanPart(p: Part, h: string, c: string, s1: string, delimiter: string, rest: string, acc: Parsed)
    requires SendableLines(p, delimiter) && NoLineEnd(delimiter) && delimiter != ""
    requires h == HeaderLines(p) && c == Content(p) && s1 == h + "\n\n" + (c + "\n" + (delimiter + rest))
    requires !Contains(s1, "\r\n\r\n")
    ensures ScanParts("\n" + s1, delimiter, acc) ==
            if StartsWith(delimiter + rest, delimiter + "--") then Seen(acc, p)
            else ScanParts(rest, delimiter, Seen(acc, p))
  {
    hide *;
    ContentIsSendable(p, delimiter);
    LinesStart(p);
    OneFeed(p, delimiter);
    StoreLines(acc, p, delimiter);
    ScanRound(h, c, s1, delimiter, rest, acc, Seen(acc, p));
  }

  lemma ContentIsSendable(p: Part, delimiter: string)
    requires SendableLines(p, delimiter)
    ensures Sendable(p, delimiter) && !Contains(Content(p), delimiter)
    ensures Content(p) != "" ==> Content(p)[|Content(p)| - 1] != '\r'
  {
  }

  lemma PartWhole(p: Part, delimiter: string, rest: string, s1: string)
    requires s1 == HeaderLines(p) + "\n\n" + (Content(p) + "\n" + (delimiter + rest))
    ensures PartLines(p) + delimiter + rest == "\n" + s1
  {
    hide *;
    PartLinesText(p, delimiter, rest);
    LinesRegroup(HeaderLines(p), Content(p), delimiter, rest);
  }

  lemma PartLinesText(p: Part, delimiter: string, rest: string)
    ensures PartLines(p) + delimiter + rest == "\n" + (HeaderLines(p) + "\n\n" + (Content(p) + "\n")) + delimiter + rest
  {
  }

  lemma LinesRegroup(h: string, c: string, d: string, rest: string)
    ensures "\n" + (h + "\n\n" + (c + "\n")) + d + rest == "\n" + (h + "\n\n" + (c + "\n" + (d + rest)))
  {
  }

  lemma ScanRound(h: string, c: string, s1: string, delimiter: string, rest: string, acc: Parsed, stored: Parsed)
    requires h != "" && h[0] != '\n' && h[0] != '\r'
    requires SingleFeeds(h)
    requires NoLineEnd(delimiter) && delimiter != "" && !Contains(c, delimiter) && (c != "" ==> c[|c| - 1] != '\r')
    requires StorePart(acc, h, c) == stored
    requires s1 == h + "\n\n" + (c + "\n" + (delimiter + rest)) && !Contains(s1, "\r\n\r\n")
    ensures ScanParts("\n" + s1, delimiter, acc) ==
            if StartsWith(delimiter + rest, delimiter + "--") then stored else ScanParts(rest, delimiter, stored)
  {
    var after := c + "\n" + (delimiter + rest);
    hide *;
    HeaderEnds(h, after);
    Slices(h, c, delimiter, rest);
    DropFeed(c);
    FindBehindFeed(c, delimiter, rest);
    ScanStep("\n" + s1, s1, |h| + 2, after, |c| + 1, delimiter, acc, h, c + "\n", delimiter + rest, rest);
  }

  /** What is not in a text is not in the end of it. */
  lemma NotBehind(front: string, s: string, pat: string)
    requires !Contains(front + s, pat)
    ensures !Contains(s, pat)
  {
    forall j
      ensures !OccursAt(s, pat, j)
    {
      if OccursAt(s, pat, j) {
        assert (front + s)[|front| + j..|front| + j + |pat|] == s[j..j + |pat|];
        assert OccursAt(front + s, pat, |front| + j);
      }
    }
    FindNone(s, pat, 0);
  }

  lemma EndOrMoreLines(ps: seq<Part>, delimiter: string)
    ensures StartsWith(delimiter + PartsLines(ps, delimiter), delimiter + "--") <==> ps == []
  {
    var rest, n := PartsLines(ps, delimiter), |delimiter|;
    var s, e := delimiter + rest, delimiter + "--";
    if ps == [] {
      assert s[0..n + 2] == e;
    } else {
      assert s[n] == rest[0] == '\n';
      NotAt(s, e, 0, n);
    }
  }

  lemma NothingAtEnd(delimiter: string, acc: Parsed)
    ensures ScanParts("--\n", delimiter, acc) == acc
  {
    var s := "--\n";
    assert SkipLineEnd(s) == s;
    NotAt(s, "\n\n", 0, 0);
    NotAt(s, "\n\n", 1, 0);
    FindNone(s, "\r\n\r\n", 0);
    FindNone(s, "\n\n", 0);
  }

  lemma {:induction false} ScanAllLines(ps: seq<Part>, delimiter: string, acc: Parsed)
    requires forall p :: p in ps ==> SendableLines(p, delimiter)
    requires NoLineEnd(delimiter) && delimiter != "" && !Contains(PartsLines(ps, delimiter), "\r\n\r\n")
    ensures ScanParts(PartsLines(ps, delimiter), delimiter, acc) == SeenAll(acc, ps)
    decreases |ps|
  {
    if ps == [] {
      NothingAtEnd(delimiter, acc);
    } else {
      var p, rest := ps[0], ps[1..];
      ScanLines(p, delimiter, PartsLines(rest, delimiter), acc);
      EndOrMoreLines(rest, delimiter);
      NotBehind(PartLines(p) + delimiter, PartsLines(rest, delimiter), "\r\n\r\n");
      hide Sendable, SendableLines, ScanParts, Seen, Contains;
      if rest != [] {
        ScanAllLines(rest, delimiter, Seen(acc, p));
      }
    }
  }

  /** A body with bare line feeds is parsed as the one with CRLF is, unless a CRLFCRLF stands in it. */
  lemma ParseLines(ps: seq<Part>, boundary: string)
    requires boundary != "" && NoLineEnd(boundary)
    requires forall p :: p in ps ==> SendableLines(p, "--" + boundary)
    requires !Contains(SerializeLines(ps, boundary), "\r\n\r\n")
    ensures ParseMultipart(SerializeLines(ps, boundary), boundary) == ParseMultipart(Serialize(ps, boundary), boundary)
    ensures ParseMultipart(SerializeLines(ps, boundary), boundary) == SeenAll(NOTHING, ps)
  {
    var d := "--" + boundary;
    SendableBoth(ps, d);
    DelimiterClean(boundary);
    hide *;
    ParseSerialized(ps, boundary);
    SerializedLines(ps, boundary);
    NotBehind(d, PartsLines(ps, d), "\r\n\r\n");
    ParseFrom(boundary, PartsLines(ps, d));
    ScanAllLines(ps, d, NOTHING);
  }

  lemma SendableBoth(ps: seq<Part>, d: string)
    requires forall p :: p in ps ==> SendableLines(p, d)
    ensures forall p :: p in ps ==> Sendable(p, d)
  {
  }

  lemma DelimiterClean(boundary: string)
    requires NoLineEnd(boundary)
    ensures NoLineEnd("--" + boundary) && "--" + boundary != ""
  {
  }

  lemma SerializedLines(ps: seq<Part>, boundary: string)
    ensures SerializeLines(ps, boundary) == "--" + boundary + PartsLines(ps, "--" + boundary)
  {
  }

  lemma ParseFrom(boundary: string, tail: string)
    requires boundary != ""
    ensures ParseMultipart("--" + boundary + tail, boundary) == ScanParts(tail, "--" + boundary, NOTHING)
  {
    var d := "--" + boundary;
    hide ScanParts, Find;
    DelimiterFirst(d + tail, d, tail);
    assert |d| == 2 + |boundary|;
  }
}
