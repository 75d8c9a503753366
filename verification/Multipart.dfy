/** The multipart/form-data scanner (section 5.1.1 of RFC 2046, section 4 of RFC 7578) and
    the round trip with the serialization its clients use. */
module Multipart {
  import opened Wrappers
  import opened Text

  const FILENAME_KEY := "filename="
  const TYPE_KEY := "Content-Type:"

  const MAX_FIELD_SIZE := 1024 * 1024
  const MAX_FILE_SIZE := 25 * 1024 * 1024

  datatype MultipartFile = MultipartFile(filename: string, contentType: string, data: string)

  /** The two maps a parse fills. */
  datatype Parsed = Parsed(fields: map<string, string>, files: map<string, MultipartFile>)

  // ---------------------------------------------------------------------- header values

  predicate IsTrimmed(c: char) {
    c == ' ' || c == '\t' || c == '\r' || c == '\n'
  }

  function TrimStart(s: string): string {
    if s != "" && IsTrimmed(s[0]) then TrimStart(s[1..]) else s
  }

  function TrimEnd(s: string): string {
    if s != "" && IsTrimmed(s[|s| - 1]) then TrimEnd(s[..|s| - 1]) else s
  }

  function Trim(s: string): string {
    TrimEnd(TrimStart(s))
  }

  /** A value, from what follows its keyword: quoted up to the next quote, or unquoted up to a
      semicolon. */
  function ParameterValue(rest: string): string {
    if rest == "" then ""
    else if rest[0] == '"' then
      match FindChar(rest, '"', 1)
      case None => ""
      case Some(end) => rest[1..end]
    else
      match FindChar(rest, ';', 0)
      case None => Trim(rest)
      case Some(end) => Trim(rest[..end])
  }

  /** The value of a parameter of a header. */
  function Parameter(header: string, key: string): string {
    match After(header, key)
    case None => ""
    case Some(rest) => ParameterValue(rest)
  }

  function FirstLine(s: string): string {
    match FindChar(s, '\n', 0)
    case None => s
    case Some(end) => s[..end]
  }

  function Disposition(headers: string): string {
    match Find(headers, "Content-Disposition:", 0)
    case None => ""
    case Some(i) => FirstLine(headers[i..])
  }

  function ContentType(headers: string): string {
    match After(headers, TYPE_KEY)
    case None => ""
    case Some(rest) => Trim(FirstLine(rest))
  }

  // ------------------------------------------------------------------------- the scanner

  function SkipLineEnd(s: string): string {
    var t := if s != "" && s[0] == '\r' then s[1..] else s;
    if t != "" && t[0] == '\n' then t[1..] else t
  }

  /** The length of a header block with its blank line. */
  function HeaderLength(s: string): (r: Option<nat>)
    ensures r.Some? ==> 2 <= r.value <= |s|
  {
    match Find(s, "\r\n\r\n", 0)
    case Some(i) => Some(i + 4)
    case None =>
      match Find(s, "\n\n", 0)
      case Some(i) => Some(i + 2)
      case None => None
  }

  function DropLineEnd(content: string): string {
    var n := |content|;
    if 2 <= n && content[n - 2..] == "\r\n" then content[..n - 2]
    else if content != "" && content[n - 1] == '\n' then content[..n - 1]
    else content
  }

  /** Files one part by its names; parts without a name and oversized ones are dropped. */
  function Store(acc: Parsed, name: string, filename: string, contentType: string, content: string): Parsed {
    if name == "" then acc
    else if filename != "" then
      if |content| <= MAX_FILE_SIZE then acc.(files := acc.files[name := MultipartFile(filename, contentType, content)]) else acc
    else
      if |content| <= MAX_FIELD_SIZE then acc.(fields := acc.fields[name := content]) else acc
  }

  function StorePart(acc: Parsed, headers: string, content: string): Parsed {
    var d := Disposition(headers);
    Store(acc, Parameter(d, "name="), Parameter(d, FILENAME_KEY), ContentType(headers), content)
  }

  /** What follows a delimiter, scanned part by part. */
  function ScanParts(s: string, delimiter: string, acc: Parsed): Parsed
    decreases |s|
  {
    if s == "" then acc
    else
      var s1 := SkipLineEnd(s);
      match HeaderLength(s1)
      case None => acc
      case Some(n) =>
        var rest := s1[n..];
        match Find(rest, delimiter, 0)
        case None => acc
        case Some(next) =>
          var acc' := StorePart(acc, s1[..n - 2], DropLineEnd(rest[..next]));
          if StartsWith(rest[next..], delimiter + "--") then acc'
          else ScanParts(rest[next + |delimiter|..], delimiter, acc')
  }

  function ParseMultipart(body: string, boundary: string): Parsed {
    if body == "" || boundary == "" then Parsed(map[], map[])
    else
      match Find(body, "--" + boundary, 0)
      case None => Parsed(map[], map[])
      case Some(i) => ScanParts(body[i + 2 + |boundary|..], "--" + boundary, Parsed(map[], map[]))
  }

  // ------------------------------------------------------------------------ serialization

  datatype Part =
    | Field(name: string, value: string)
    | File(name: string, filename: string, contentType: string, data: string)

  const NAME_PREFIX := "Content-Disposition: form-data; name="

  function Quote(s: string): string {
    "\"" + s + "\""
  }

  function DispositionLine(p: Part): string {
    NAME_PREFIX + Quote(p.name) + BehindName(p)
  }

  /** What stands behind the name on the disposition line. */
  function BehindName(p: Part): string {
    if p.File? then FILENAME + Quote(p.filename) else ""
  }

  function HeaderText(p: Part): string {
    DispositionLine(p) + "\r\n" + if p.File? then TYPE + p.contentType + "\r\n" else ""
  }

  function Content(p: Part): string {
    if p.Field? then p.value else p.data
  }

  /** A part as it stands between delimiters. */
  function PartText(p: Part): string {
    "\r\n" + HeaderText(p) + "\r\n" + Content(p) + "\r\n"
  }

  function PartsText(ps: seq<Part>, delimiter: string): string {
    if ps == [] then "--\r\n" else PartText(ps[0]) + delimiter + PartsText(ps[1..], delimiter)
  }

  function Serialize(ps: seq<Part>, boundary: string): string {
    "--" + boundary + PartsText(ps, "--" + boundary)
  }

  // ------------------------------------------------------------------- what may be sent

  predicate NoLineEnd(s: string) {
    forall i :: 0 <= i < |s| ==> s[i] != '\r' && s[i] != '\n'
  }

  predicate NoQuote(s: string) {
    forall i :: 0 <= i < |s| ==> s[i] != '"'
  }

  /** Header values that stand in quotes on one line; contents without the delimiter. */
  predicate Sendable(p: Part, delimiter: string) {
    && NoQuote(p.name) && NoLineEnd(p.name)
    && !Contains(Content(p), delimiter)
    && (p.File? ==> NoQuote(p.filename) && NoLineEnd(p.filename) && NoLineEnd(p.contentType))
  }

  /** What the parser takes for the file name of a part: where the keyword stands in the name,
      what follows it there. */
  function SeenFilename(p: Part): string {
    match After(p.name, FILENAME_KEY)
    case None => if p.File? then p.filename else ""
    case Some(v) =>
      if v == "" then if p.File? then FILENAME else ""
      else
        match FindChar(v, ';', 0)
        case Some(k) => Trim(v[..k])
        case None => Trim(v + "\"")
  }

  /** What it takes for the content type. */
  function SeenType(p: Part): string {
    match After(p.name, TYPE_KEY)
    case Some(v) => Trim(v + "\"" + BehindName(p))
    case None =>
      if p.Field? then ""
      else
        match After(p.filename, TYPE_KEY)
        case Some(v) => Trim(v + "\"")
        case None => Trim(p.contentType)
  }

  /** What the parser files for a part. */
  function Seen(acc: Parsed, p: Part): Parsed {
    Store(acc, p.name, SeenFilename(p), SeenType(p), Content(p))
  }

  function SeenAll(acc: Parsed, ps: seq<Part>): Parsed
    decreases |ps|
  {
    if ps == [] then acc else SeenAll(Seen(acc, ps[0]), ps[1..])
  }

  /** Names that the keywords in them do not disturb. */
  predicate ReadsBack(p: Part) {
    FilenameReadsBack(p) && (p.File? && p.filename != "" ==> TypeReadsBack(p))
  }

  /** The keyword of the file name is not in the name; or it ends the name of a field; or a
      semicolon behind it ends what happens to be the file name. */
  predicate FilenameReadsBack(p: Part) {
    match After(p.name, FILENAME_KEY)
    case None => true
    case Some(v) =>
      if v == "" then p.Field? || p.filename == FILENAME
      else
        match FindChar(v, ';', 0)
        case None => false
        case Some(k) => Trim(v[..k]) == if p.File? then p.filename else ""
  }

  /** The keyword of the content type is in neither name; or what follows it to the end of the line
      happens to be the content type. */
  predicate TypeReadsBack(p: Part)
    requires p.File?
  {
    match After(p.name, TYPE_KEY)
    case Some(v) => Trim(v + "\"" + BehindName(p)) == Trim(p.contentType)
    case None =>
      match After(p.filename, TYPE_KEY)
      case Some(v) => Trim(v + "\"") == Trim(p.contentType)
      case None => true
  }

  /** What a receiver should file for a part. */
  function Expected(acc: Parsed, p: Part): Parsed {
    match p
    case Field(name, value) => Store(acc, name, "", "", value)
    case File(name, filename, contentType, data) => Store(acc, name, filename, Trim(contentType), data)
  }

  function ExpectedAll(acc: Parsed, ps: seq<Part>): Parsed
    decreases |ps|
  {
    if ps == [] then acc else ExpectedAll(Expected(acc, ps[0]), ps[1..])
  }

  // ------------------------------------------------------------------- searching past text

  lemma OccursInside(a: string, b: string, c: string, pat: string, j: int)
    requires |a| <= j && j + |pat| <= |a| + |b|
    ensures OccursAt(a + b + c, pat, j) <==> OccursAt(b, pat, j - |a|)
  {
    var s := a + b + c;
    assert s[j..j + |pat|] == b[j - |a|..j - |a| + |pat|];
  }

  /** A keyword without quotes that is not in front of a quoted value is found in it, or only
      behind it. */
  lemma AfterQuoted(a: string, n: string, r: string, pat: string)
    requires NoQuote(pat) && |pat| > 0 && !Contains(a, pat)
    ensures After(a + Quote(n) + r, pat) ==
            match After(n, pat) case Some(v) => Some(v + "\"" + r) case None => After(r, pat)
  {
    var s := a + Quote(n) + r;
    match Find(n, pat, 0)
    case None =>
      FindPastQuoted(a, n, r, pat);
      if Find(r, pat, 0).Some? {
        BehindQuoted(a, n, r);
        SliceBehind(s, |a| + |n| + 2, r, Find(r, pat, 0).value + |pat|);
      }
    case Some(i) =>
      FindInQuoted(a, n, r, pat, i);
      InQuoted(a, n, r, i + |pat|);
  }

  lemma SliceBehind(s: string, q: nat, r: string, k: nat)
    requires q <= |s| && s[q..] == r && k <= |r|
    ensures s[q + k..] == r[k..]
  {
  }

  lemma FindPastQuoted(a: string, n: string, r: string, pat: string)
    requires NoQuote(pat) && |pat| > 0 && !Contains(a, pat) && !Contains(n, pat)
    ensures Find(a + Quote(n) + r, pat, 0) ==
            match Find(r, pat, 0) case None => None case Some(i) => Some(|a| + |n| + 2 + i)
  {
    var q, s := |a| + |n| + 2, a + Quote(n) + r;
    hide *;
    NotContained(n, pat);
    BehindQuoted(a, n, r);
    forall j: nat | j < q
      ensures !OccursAt(s, pat, j)
    {
      NotBeforeQuoteEnds(a, n, r, pat, j, |n| + 1);
    }
    FindFrom(s, pat, q);
  }

  lemma FindInQuoted(a: string, n: string, r: string, pat: string, i: nat)
    requires NoQuote(pat) && |pat| > 0 && !Contains(a, pat) && Find(n, pat, 0) == Some(i)
    ensures Find(a + Quote(n) + r, pat, 0) == Some(|a| + 1 + i)
  {
    var s := a + Quote(n) + r;
    hide *;
    NotBefore(n, pat, i);
    OccursQuoted(a, n, r, pat, i);
    forall j: nat | j < |a| + 1 + i
      ensures !OccursAt(s, pat, j)
    {
      NotBeforeQuoteEnds(a, n, r, pat, j, i);
    }
    FindIs(s, pat, 0, |a| + 1 + i);
  }

  lemma NotContained(n: string, pat: string)
    requires !Contains(n, pat)
    ensures forall i: nat :: !OccursAt(n, pat, i)
  {
  }

  lemma NotBefore(n: string, pat: string, i: nat)
    requires Find(n, pat, 0) == Some(i)
    ensures OccursAt(n, pat, i) && i <= |n| && forall k: nat | k < i :: !OccursAt(n, pat, k)
  {
  }

  lemma OccursQuoted(a: string, n: string, r: string, pat: string, i: nat)
    requires OccursAt(n, pat, i)
    ensures OccursAt(a + Quote(n) + r, pat, |a| + 1 + i)
  {
    assert a + Quote(n) + r == (a + "\"") + n + ("\"" + r);
    OccursInside(a + "\"", n, "\"" + r, pat, |a| + 1 + i);
  }

  lemma BehindQuoted(a: string, n: string, r: string)
    ensures var q := |a| + |n| + 2; q <= |a + Quote(n) + r| && (a + Quote(n) + r)[q..] == r
  {
    assert |a + Quote(n)| == |a| + |n| + 2;
  }

  lemma InQuoted(a: string, n: string, r: string, k: nat)
    requires k <= |n|
    ensures |a| + 1 + k <= |a + Quote(n) + r| && (a + Quote(n) + r)[|a| + 1 + k..] == n[k..] + "\"" + r
  {
    assert a + Quote(n) + r == (a + "\"") + (n + "\"" + r);
  }

  /** Nothing before a position, so the search starts there. */
  lemma FindFrom(s: string, pat: string, q: nat)
    requires q <= |s| && forall j: nat | j < q :: !OccursAt(s, pat, j)
    ensures Find(s, pat, 0) ==
            match Find(s[q..], pat, 0) case None => None case Some(i) => Some(q + i)
  {
    FindShift(s, pat, q);
    match Find(s[q..], pat, 0)
    case None => FindNone(s, pat, 0);
    case Some(i) => FindIs(s, pat, 0, q + i);
  }

  /** Not before position `k` of a quoted value, where the keyword is not in it before `k`. */
  lemma NotBeforeQuoteEnds(a: string, n: string, r: string, pat: string, j: nat, k: nat)
    requires NoQuote(pat) && |pat| > 0 && !Contains(a, pat) && k <= |n| + 1
    requires forall i: nat | i < k :: !OccursAt(n, pat, i)
    requires j < |a| + 1 + k
    ensures !OccursAt(a + Quote(n) + r, pat, j)
  {
    var s := a + Quote(n) + r;
    var open, close := |a|, |a| + |n| + 1;
    assert s[open] == '"' && s[close] == '"';
    if OccursAt(s, pat, j) {
      if j <= open < j + |pat| {
        OccursChar(s, pat, j, open - j);
      }
      if j <= close < j + |pat| {
        OccursChar(s, pat, j, close - j);
      }
      if j < open {
        assert s == "" + a + (Quote(n) + r);
        OccursInside("", a, Quote(n) + r, pat, j);
      } else {
        assert s == (a + "\"") + n + ("\"" + r);
        OccursInside(a + "\"", n, "\"" + r, pat, j);
      }
    }
  }

  /** A delimiter free of line ends is not found in front of the line end before it. */
  lemma FindDelimiter(content: string, delimiter: string, rest: string)
    requires NoLineEnd(delimiter) && delimiter != "" && !Contains(content, delimiter)
    ensures Find(content + "\r\n" + (delimiter + rest), delimiter, 0) == Some(|content| + 2)
  {
    var n := |content|;
    var s := content + "\r\n" + (delimiter + rest);
    assert s[n] == '\r' && s[n + 1] == '\n';
    forall j: nat | j < n + 2
      ensures !OccursAt(s, delimiter, j)
    {
      if OccursAt(s, delimiter, j) {
        if j <= n < j + |delimiter| {
          OccursChar(s, delimiter, j, n - j);
        }
        if j == n + 1 {
          OccursChar(s, delimiter, j, 0);
        }
        assert s == "" + content + ("\r\n" + (delimiter + rest));
        OccursInside("", content, "\r\n" + (delimiter + rest), delimiter, j);
      }
    }
    assert s[n + 2..n + 2 + |delimiter|] == delimiter;
    FindIs(s, delimiter, 0, n + 2);
  }

  // ----------------------------------------------------------------------- reading headers

  lemma PrefixChar(i: nat)
    requires i < 37
    ensures |NAME_PREFIX| == 37
    ensures NAME_PREFIX[i] != '"' && NAME_PREFIX[i] != '\r' && NAME_PREFIX[i] != '\n'
    ensures NAME_PREFIX[i] == '=' <==> i == 36
    ensures NAME_PREFIX[i] == ':' <==> i == 19
    ensures NAME_PREFIX[7] == '-' && NAME_PREFIX[28] == 't' && NAME_PREFIX[32..] == "name="
  {
    var s := "Content-Disposition: form-data; name=";
    assert NAME_PREFIX[i] == s[i];
    assert s[32..] == "name=";
  }

  lemma PrefixWithoutKeywords()
    ensures !Contains(NAME_PREFIX, FILENAME_KEY) && !Contains(NAME_PREFIX, TYPE_KEY)
  {
    var s := NAME_PREFIX;
    PrefixChar(0);
    forall j: nat
      ensures !OccursAt(s, "filename=", j)
    {
      if j + 9 <= 37 {
        PrefixChar(j + 8);
        NotAt(s, "filename=", j, if j == 28 then 0 else 8);
      }
    }
    forall j: nat
      ensures !OccursAt(s, "Content-Type:", j)
    {
      if j + 13 <= 37 {
        PrefixChar(j + 12);
        NotAt(s, "Content-Type:", j, if j == 7 then 0 else 12);
      }
    }
    FindNone(s, "filename=", 0);
    FindNone(s, "Content-Type:", 0);
  }

  /** The name parameter of a disposition line. */
  lemma ReadName(name: string, r: string)
    requires NoQuote(name)
    ensures Parameter(NAME_PREFIX + Quote(name) + r, "name=") == name
  {
    PrefixChar(0);
    var s := NAME_PREFIX + Quote(name) + r;
    hide Find, FindChar, Trim, ParameterValue;
    forall j: nat | j < 32
      ensures !OccursAt(s, "name=", j)
    {
      PrefixChar(j + 4);
      assert s[j + 4] == NAME_PREFIX[j + 4];
      NotAt(s, "name=", j, 4);
    }
    assert s[32..37] == NAME_PREFIX[32..];
    FindIs(s, "name=", 0, 32);
    assert s[37..] == Quote(name) + r;
    QuotedValue(name, r);
  }

  /** The text between two quotes. */
  lemma QuotedValue(value: string, r: string)
    requires NoQuote(value)
    ensures ParameterValue(Quote(value) + r) == value
  {
    var s, n := Quote(value) + r, |value|;
    assert s[0] == '"' && s[1 + n] == '"';
    assert forall j :: 1 <= j < 1 + n ==> s[j] == value[j - 1];
    FindCharIs(s, '"', 1, 1 + n);
    assert s[1..1 + n] == value;
  }

  const FILENAME := "; filename="

  lemma AfterFilename(r: string)
    ensures After(FILENAME + r, FILENAME_KEY) == Some(r)
  {
    var s, c := FILENAME + r, "; filename=";
    assert |FILENAME| == 11 && s[0] == c[0] && s[1] == c[1];
    NotAt(s, FILENAME_KEY, 0, 0);
    NotAt(s, FILENAME_KEY, 1, 0);
    assert s[2..11] == c[2..] == FILENAME_KEY;
    FindIs(s, FILENAME_KEY, 0, 2);
    assert s[11..] == r;
  }

  lemma FilenameShape()
    ensures NoQuote(FILENAME) && NoLineEnd(FILENAME) && FILENAME[0] == ';' && NoQuote(FILENAME_KEY) && NoQuote(TYPE_KEY)
    ensures |TYPE_KEY| == 13 && |FILENAME_KEY| == 9
  {
  }

  /** The value of the file name where its keyword is in the name. */
  lemma ValueInName(p: Part, v: string, cr: string)
    requires NoQuote(v) && (cr == "" || cr == "\r")
    ensures ParameterValue(v + "\"" + (BehindName(p) + cr)) ==
            if v == "" then if p.File? then FILENAME else ""
            else match FindChar(v, ';', 0) case Some(k) => Trim(v[..k]) case None => Trim(v + "\"")
  {
    if v == "" {
      hide ParameterValue, BehindName;
      EmptyInName(p, cr);
      NothingBefore(v, BehindName(p) + cr);
    } else {
      hide ParameterValue, BehindName;
      UnquotedInName(p, v, cr);
    }
  }

  lemma NothingBefore(v: string, x: string)
    requires v == ""
    ensures v + "\"" + x == "\"" + x
  {
  }

  lemma EmptyInName(p: Part, cr: string)
    requires cr == "" || cr == "\r"
    ensures ParameterValue("\"" + (BehindName(p) + cr)) == if p.File? then FILENAME else ""
  {
    FilenameShape();
    match p
    case File(_, filename, _, _) =>
      var more := filename + "\"" + cr;
      hide ParameterValue;
      assert "\"" + (BehindName(p) + cr) == Quote(FILENAME) + more;
      QuotedValue(FILENAME, more);
    case Field(_, _) =>
      var s := "\"" + ("" + cr);
      assert |s| > 1 ==> s[1] == '\r';
      FindCharNone(s, '"', 1);
  }

  lemma UnquotedInName(p: Part, v: string, cr: string)
    requires NoQuote(v) && v != "" && (cr == "" || cr == "\r")
    ensures ParameterValue(v + "\"" + (BehindName(p) + cr)) ==
            match FindChar(v, ';', 0) case Some(k) => Trim(v[..k]) case None => Trim(v + "\"")
  {
    var t, x := v + "\"", BehindName(p) + cr;
    BehindShape(p, cr);
    QuoteBehind(v, x);
    hide *;
    match FindChar(v, ';', 0)
    case Some(k) =>
      UpToSemicolon(v, "\"" + x, k);
    case None =>
      if p.File? {
        SemicolonBehind(t, x);
      } else {
        NoSemicolon(t, cr);
        TrimReturn(t, cr);
      }
  }

  lemma BehindShape(p: Part, cr: string)
    ensures if p.File? then (BehindName(p) + cr)[0] == ';' else BehindName(p) + cr == cr
  {
    FilenameShape();
  }

  lemma QuoteBehind(v: string, x: string)
    requires NoQuote(v) && v != ""
    ensures v[0] != '"' && (v + "\"")[0] == v[0] && v + "\"" + x == v + ("\"" + x)
    ensures FindChar(v, ';', 0).None? ==> ';' !in v + "\""
  {
  }

  lemma UpToSemicolon(v: string, r: string, k: nat)
    requires v != "" && v[0] != '"' && FindChar(v, ';', 0) == Some(k)
    ensures ParameterValue(v + r) == Trim(v[..k])
  {
    var s := v + r;
    assert forall j :: 0 <= j < |v| ==> s[j] == v[j];
    FindCharIs(s, ';', 0, k);
    assert s[..k] == v[..k];
  }

  lemma SemicolonBehind(t: string, r: string)
    requires t != "" && t[0] != '"' && ';' !in t && r != "" && r[0] == ';'
    ensures ParameterValue(t + r) == Trim(t)
  {
    var s, n := t + r, |t|;
    assert forall j :: 0 <= j < n ==> s[j] == t[j];
    FindCharIs(s, ';', 0, n);
    assert s[..n] == t;
  }

  lemma NoSemicolon(t: string, cr: string)
    requires t != "" && t[0] != '"' && ';' !in t && (cr == "" || cr == "\r")
    ensures ParameterValue(t + cr) == Trim(t + cr)
  {
    var s := t + cr;
    assert forall j :: 0 <= j < |t| ==> s[j] == t[j];
    FindCharNone(s, ';', 0);
  }

  /** The file name that is read is the one seen. */
  lemma ReadFilename(p: Part, cr: string)
    requires NoQuote(p.name) && (cr == "" || cr == "\r") && (p.File? ==> NoQuote(p.filename))
    ensures Parameter(NAME_PREFIX + Quote(p.name) + (BehindName(p) + cr), FILENAME_KEY) == SeenFilename(p)
  {
    PrefixWithoutKeywords();
    FilenameShape();
    AfterQuoted(NAME_PREFIX, p.name, BehindName(p) + cr, FILENAME_KEY);
    match After(p.name, FILENAME_KEY)
    case Some(v) =>
      ValueInName(p, v, cr);
    case None =>
      hide ParameterValue, NoQuote;
      match p
      case Field(_, _) =>
        assert "" + cr == cr;
        FindNone(cr, FILENAME_KEY, 0);
      case File(_, filename, _, _) =>
        assert BehindName(p) + cr == FILENAME + (Quote(filename) + cr);
        AfterFilename(Quote(filename) + cr);
        QuotedValue(filename, cr);
  }

  // ------------------------------------------------------------------- whole header blocks

  lemma LineIsClean(p: Part, delimiter: string)
    requires Sendable(p, delimiter)
    ensures NoLineEnd(DispositionLine(p)) && |DispositionLine(p)| >= 39
    ensures DispositionLine(p)[..20] == "Content-Disposition:"
  {
    var name, behind := Quote(p.name), BehindName(p);
    PrefixIsClean();
    NamesAreClean(p, delimiter);
    var line := DispositionLine(p);
    hide *;
    assert line[..20] == NAME_PREFIX[..20] by {
      assert line == NAME_PREFIX + (name + behind);
    }
    JoinClean(NAME_PREFIX, name, behind);
  }

  lemma PrefixIsClean()
    ensures |NAME_PREFIX| == 37 && NoLineEnd(NAME_PREFIX) && NAME_PREFIX[..20] == "Content-Disposition:"
  {
    PrefixChar(0);
    forall i | 0 <= i < 37
      ensures NAME_PREFIX[i] != '\r' && NAME_PREFIX[i] != '\n'
    {
      PrefixChar(i);
    }
  }

  lemma NamesAreClean(p: Part, delimiter: string)
    requires Sendable(p, delimiter)
    ensures NoLineEnd(Quote(p.name)) && |Quote(p.name)| >= 2 && NoLineEnd(BehindName(p))
  {
    hide Contains;
  }

  lemma JoinClean(a: string, b: string, c: string)
    requires NoLineEnd(a) && NoLineEnd(b) && NoLineEnd(c)
    ensures NoLineEnd(a + b + c)
  {
  }

  /** The disposition header of a part is its whole first line. */
  lemma ReadDisposition(p: Part, delimiter: string)
    requires Sendable(p, delimiter)
    ensures Disposition(HeaderText(p)) == DispositionLine(p) + "\r"
  {
    LineIsClean(p, delimiter);
    hide Find, FindChar, DispositionLine, Sendable;
    var line, s := DispositionLine(p), HeaderText(p);
    var n := |line|;
    assert s[0..20] == line[..20];
    FindIs(s, "Content-Disposition:", 0, 0);
    assert s[n] == '\r' && s[n + 1] == '\n';
    assert forall j :: 0 <= j < n ==> s[j] == line[j];
    FindCharIs(s, '\n', 0, n + 1);
    assert s[0..] == s && s[..n + 1] == line + "\r";
  }

  /** The block ends with the blank line the sender wrote. */
  lemma ReadHeaderLength(p: Part, delimiter: string, rest: string)
    requires Sendable(p, delimiter)
    ensures HeaderLength(HeaderText(p) + "\r\n" + rest) == Some(|HeaderText(p)| + 2)
  {
    hide Find, DispositionLine, Contains;
    var h := HeaderText(p);
    var s, end := h + "\r\n" + rest, |h| - 2;
    assert h[end..] == "\r\n";
    assert s[end..end + 4] == "\r\n\r\n";
    NoEarlierEnd(p, delimiter, s);
    FindIs(s, "\r\n\r\n", 0, end);
  }

  lemma NoEarlierEnd(p: Part, delimiter: string, s: string)
    requires Sendable(p, delimiter) && HeaderText(p) <= s
    ensures forall j :: 0 <= j < |HeaderText(p)| - 2 ==> !OccursAt(s, "\r\n\r\n", j)
  {
    LineIsClean(p, delimiter);
    hide DispositionLine, Contains, OccursAt;
    var line := DispositionLine(p);
    assert line <= HeaderText(p);
    forall j: nat | j < |HeaderText(p)| - 2
      ensures !OccursAt(s, "\r\n\r\n", j)
    {
      if p.Field? || j < |line| {
        assert s[j] == line[j];
        NotAt(s, "\r\n\r\n", j, 0);
      } else {
        NotInTypeLine(p, s, j);
      }
    }
  }

  const TYPE := "Content-Type: "

  lemma NotInTypeLine(p: Part, s: string, j: nat)
    requires p.File? && NoLineEnd(p.contentType)
    requires HeaderText(p) <= s && |DispositionLine(p)| <= j < |HeaderText(p)| - 2
    ensures !OccursAt(s, "\r\n\r\n", j)
  {
    hide DispositionLine;
    var n, t := |DispositionLine(p)|, TYPE + p.contentType;
    assert HeaderText(p) == DispositionLine(p) + "\r\n" + t + "\r\n";
    assert TYPE == "Content-Type: ";
    if j == n {
      assert s[j + 2] == HeaderText(p)[n + 2] == t[0] == 'C';
      NotAt(s, "\r\n\r\n", j, 2);
    } else if j == n + 1 {
      assert s[j] == HeaderText(p)[n + 1] == '\n';
      NotAt(s, "\r\n\r\n", j, 0);
    } else {
      assert s[j] == HeaderText(p)[j] == t[j - n - 2];
      TypeLineChar(p.contentType, j - n - 2);
      NotAt(s, "\r\n\r\n", j, 0);
    }
  }

  lemma TypeLineChar(contentType: string, i: nat)
    requires NoLineEnd(contentType) && i < |TYPE + contentType|
    ensures (TYPE + contentType)[i] != '\r' && (TYPE + contentType)[i] != '\n'
  {
    var t := "Content-Type: ";
    if i < 14 {
      assert (TYPE + contentType)[i] == t[i];
    } else {
      assert (TYPE + contentType)[i] == contentType[i - 14];
    }
  }

  // ------------------------------------------------------------------------ content types

  lemma {:induction false} TrimStartSnoc(s: string)
    ensures TrimStart(s + "\r") == if TrimStart(s) == "" then "" else TrimStart(s) + "\r"
  {
    var t := s + "\r";
    if s == "" {
      assert t == "\r" && t[1..] == "";
    } else if IsTrimmed(s[0]) {
      assert t[0] == s[0] && t[1..] == s[1..] + "\r";
      TrimStartSnoc(s[1..]);
    } else {
      assert t[0] == s[0];
    }
  }

  lemma TrimSnoc(s: string)
    ensures Trim(s + "\r") == Trim(s)
  {
    TrimStartSnoc(s);
    var u := TrimStart(s);
    if u != "" {
      assert (u + "\r")[..|u|] == u;
    }
  }

  lemma TrimReturn(s: string, cr: string)
    requires cr == "" || cr == "\r"
    ensures Trim(s + cr) == Trim(s) && Trim(" " + s + cr) == Trim(s)
  {
    var t := " " + s + cr;
    assert t[0] == ' ' && t[1..] == s + cr;
    assert s + "" == s;
    TrimSnoc(s);
  }

  /** What follows the disposition line in a header block. */
  function TypeLine(p: Part): string {
    if p.File? then TYPE + p.contentType + "\r\n" else ""
  }

  lemma HeaderParts(p: Part)
    ensures HeaderText(p) == NAME_PREFIX + Quote(p.name) + (BehindName(p) + ("\r\n" + TypeLine(p)))
  {
  }

  /** The first line of a header block, with its carriage return. */
  lemma FirstLineIs(s: string, line: string, more: string)
    requires s == line + ("\r\n" + more) && NoLineEnd(line)
    ensures FirstLine(s) == line + "\r"
  {
    var n := |line|;
    assert s[n] == '\r' && s[n + 1] == '\n' && forall j :: 0 <= j < n ==> s[j] == line[j];
    FindCharIs(s, '\n', 0, n + 1);
    assert s[..n + 1] == line + "\r";
  }

  /** The rest of a line with a quote in it, read as a content type. */
  lemma TypeInLine(v: string, behind: string, more: string)
    requires NoLineEnd(v) && NoLineEnd(behind)
    ensures Trim(FirstLine(v + "\"" + (behind + ("\r\n" + more)))) == Trim(v + "\"" + behind)
  {
    var s := v + "\"" + (behind + ("\r\n" + more));
    var line := v + "\"" + behind;
    assert s == line + ("\r\n" + more);
    hide Trim, FirstLine;
    FirstLineIs(s, line, more);
    TrimSnoc(line);
  }

  lemma NoTypeInLineEnd()
    ensures After("\r\n", TYPE_KEY) == None && !Contains(FILENAME, TYPE_KEY)
  {
    FindNone("\r\n", TYPE_KEY, 0);
    FindNone(FILENAME, TYPE_KEY, 0);
  }

  lemma AfterLineEnd(contentType: string)
    ensures After("\r\n" + (TYPE + contentType + "\r\n"), TYPE_KEY) == Some(" " + contentType + "\r\n")
  {
    TypeShape(contentType);
    BehindLineEnd(TYPE_KEY, " " + contentType + "\r\n");
  }

  lemma TypeShape(contentType: string)
    ensures "\r\n" + (TYPE + contentType + "\r\n") == "\r\n" + (TYPE_KEY + (" " + contentType + "\r\n"))
    ensures |TYPE_KEY| == 13 && TYPE_KEY[0] == 'C'
  {
    assert TYPE == TYPE_KEY + " ";
  }

  lemma BehindLineEnd(pat: string, r: string)
    requires pat != "" && pat[0] == 'C'
    ensures After("\r\n" + (pat + r), pat) == Some(r)
  {
    var s := "\r\n" + (pat + r);
    assert s[0] == '\r' && s[1] == '\n' && s[2..2 + |pat|] == pat && s[2 + |pat|..] == r;
    NotAt(s, pat, 0, 0);
    NotAt(s, pat, 1, 0);
    FindIs(s, pat, 0, 2);
  }

  /** The content type of its own line, without the white space around it. */
  lemma TypeOfLine(contentType: string)
    requires NoLineEnd(contentType)
    ensures Trim(FirstLine(" " + contentType + "\r\n")) == Trim(contentType)
  {
    var line := " " + contentType;
    assert line + "\r\n" == line + ("\r\n" + "");
    hide Trim, FirstLine;
    FirstLineIs(line + "\r\n", line, "");
    TrimReturn(contentType, "\r");
  }

  /** The content type that is read is the one seen. */
  lemma ReadContentType(p: Part, delimiter: string)
    requires Sendable(p, delimiter)
    ensures ContentType(HeaderText(p)) == SeenType(p)
  {
    HeaderParts(p);
    AfterName(p);
    hide Trim, FirstLine, HeaderText, NoQuote, Contains, After;
    match After(p.name, TYPE_KEY)
    case Some(v) => ReadNameType(p, delimiter, v);
    case None =>
      if p.File? {
        ReadFileType(p, delimiter);
      } else {
        NoTypeInLineEnd();
        assert BehindName(p) + ("\r\n" + TypeLine(p)) == "\r\n";
      }
  }

  lemma AfterName(p: Part)
    ensures var r := BehindName(p) + ("\r\n" + TypeLine(p));
            After(NAME_PREFIX + Quote(p.name) + r, TYPE_KEY) ==
            match After(p.name, TYPE_KEY) case Some(v) => Some(v + "\"" + r) case None => After(r, TYPE_KEY)
  {
    PrefixWithoutKeywords();
    FilenameShape();
    hide *;
    AfterQuoted(NAME_PREFIX, p.name, BehindName(p) + ("\r\n" + TypeLine(p)), TYPE_KEY);
  }

  lemma ReadNameType(p: Part, delimiter: string, v: string)
    requires Sendable(p, delimiter) && After(p.name, TYPE_KEY) == Some(v)
    ensures Trim(FirstLine(v + "\"" + (BehindName(p) + ("\r\n" + TypeLine(p))))) == SeenType(p)
  {
    FilenameShape();
    assert NoLineEnd(v) && NoLineEnd(BehindName(p));
    hide *;
    TypeInLine(v, BehindName(p), TypeLine(p));
    TypeSeenInName(p, v);
  }

  lemma TypeSeenInName(p: Part, v: string)
    requires After(p.name, TYPE_KEY) == Some(v)
    ensures SeenType(p) == Trim(v + "\"" + BehindName(p))
  {
    hide Trim;
  }

  /** The same where the keyword is not in the name of a file. */
  lemma ReadFileType(p: Part, delimiter: string)
    requires Sendable(p, delimiter) && p.File? && After(p.name, TYPE_KEY).None?
    ensures var r := After(BehindName(p) + ("\r\n" + TypeLine(p)), TYPE_KEY);
            r.Some? && Trim(FirstLine(r.value)) == SeenType(p)
  {
    var more := "\r\n" + TypeLine(p);
    NoTypeInLineEnd();
    FilenameShape();
    AfterQuoted(FILENAME, p.filename, more, TYPE_KEY);
    hide Trim, FirstLine, NoQuote, Contains;
    match After(p.filename, TYPE_KEY)
    case Some(v) =>
      assert "" + more == more && v + "\"" + "" == v + "\"";
      TypeInLine(v, "", TypeLine(p));
    case None =>
      AfterLineEnd(p.contentType);
      TypeOfLine(p.contentType);
  }

  // ------------------------------------------------------------------------- the round trip

  /** The scanner files a part exactly as it is seen. */
  lemma StoreSent(acc: Parsed, p: Part, delimiter: string)
    requires Sendable(p, delimiter)
    ensures StorePart(acc, HeaderText(p), Content(p)) == Seen(acc, p)
  {
    ReadDisposition(p, delimiter);
    var r := BehindName(p) + "\r";
    assert DispositionLine(p) + "\r" == NAME_PREFIX + Quote(p.name) + r;
    ReadName(p.name, r);
    ReadFilename(p, "\r");
    ReadContentType(p, delimiter);
    hide Find, After, Disposition, ContentType, Parameter, HeaderText, SeenFilename, SeenType, Store;
  }

  lemma DropSentLineEnd(content: string)
    ensures DropLineEnd(content + "\r\n") == content
  {
    var c := content + "\r\n";
    assert c[|c| - 2..] == "\r\n" && c[..|c| - 2] == content;
  }

  lemma PartRegroup(x: string, h: string, c: string, d: string, rest: string)
    ensures x + h + x + c + x + d + rest == x + (h + x + (c + x + (d + rest)))
  {
  }

  /** The slices the scanner takes. */
  lemma PartSlices(h: string, c: string, d: string, rest: string)
    ensures var after := c + "\r\n" + (d + rest);
            var s1 := h + "\r\n" + after;
            && s1[|h| + 2..] == after && s1[..|h|] == h
            && after[..|c| + 2] == c + "\r\n"
            && after[|c| + 2..] == d + rest
            && after[|c| + 2 + |d|..] == rest
            && SkipLineEnd("\r\n" + s1) == s1
  {
    var after := c + "\r\n" + (d + rest);
    var s1 := h + "\r\n" + after;
    var s := "\r\n" + s1;
    assert s[0] == '\r' && s[1..][0] == '\n' && s[1..][1..] == s1;
    assert after[|c| + 2 + |d|..] == after[|c| + 2..][|d|..];
  }

  /** One round of the scanner, from what its searches return and the slices it takes. */
  lemma ScanStep(s: string, s1: string, n: nat, rest: string, next: nat, delimiter: string, acc: Parsed,
                 headers: string, content: string, tail: string, after: string)
    requires s != "" && SkipLineEnd(s) == s1 && HeaderLength(s1) == Some(n)
    requires s1[n..] == rest && s1[..n - 2] == headers && Find(rest, delimiter, 0) == Some(next)
    requires rest[..next] == content && rest[next..] == tail && rest[next + |delimiter|..] == after
    ensures ScanParts(s, delimiter, acc) ==
            var acc' := StorePart(acc, headers, DropLineEnd(content));
            if StartsWith(tail, delimiter + "--") then acc' else ScanParts(after, delimiter, acc')
  {
    hide Find, HeaderLength, StorePart, DropLineEnd, SkipLineEnd, StartsWith;
  }

  /** One part and the delimiter after it. */
  lemma ScanOne(p: Part, delimiter: string, rest: string, acc: Parsed)
    requires Sendable(p, delimiter) && NoLineEnd(delimiter) && delimiter != ""
    ensures ScanParts(PartText(p) + delimiter + rest, delimiter, acc) ==
            if StartsWith(delimiter + rest, delimiter + "--") then Seen(acc, p)
            else ScanParts(rest, delimiter, Seen(acc, p))
  {
    var h, c := HeaderText(p), Content(p);
    PartRegroup("\r\n", h, c, delimiter, rest);
    hide Find, Sendable, HeaderText, Content, StorePart, Seen, HeaderLength, DropLineEnd, SkipLineEnd, StartsWith, ScanParts;
    var after := c + "\r\n" + (delimiter + rest);
    var s1 := h + "\r\n" + after;
    assert PartText(p) + delimiter + rest == "\r\n" + s1;
    ReadHeaderLength(p, delimiter, after);
    ContentIsClean(p, delimiter);
    FindDelimiter(c, delimiter, rest);
    StoreSent(acc, p, delimiter);
    DropSentLineEnd(c);
    PartSlices(h, c, delimiter, rest);
    ScanStep("\r\n" + s1, s1, |h| + 2, after, |c| + 2, delimiter, acc, h, c + "\r\n", delimiter + rest, rest);
  }

  lemma ContentIsClean(p: Part, delimiter: string)
    requires Sendable(p, delimiter)
    ensures !Contains(Content(p), delimiter)
  {
  }

  lemma EndOrMore(ps: seq<Part>, delimiter: string)
    ensures StartsWith(delimiter + PartsText(ps, delimiter), delimiter + "--") <==> ps == []
  {
    var rest, n := PartsText(ps, delimiter), |delimiter|;
    var s, e := delimiter + rest, delimiter + "--";
    if ps == [] {
      assert s[0..n + 2] == e;
    } else {
      assert s[n] == rest[0] == '\r';
      NotAt(s, e, 0, n);
    }
  }

  lemma {:induction false} ScanAll(ps: seq<Part>, delimiter: string, acc: Parsed)
    requires forall p :: p in ps ==> Sendable(p, delimiter)
    requires NoLineEnd(delimiter) && delimiter != ""
    ensures ScanParts(PartsText(ps, delimiter), delimiter, acc) == SeenAll(acc, ps)
    decreases |ps|
  {
    if ps == [] {
      NoPartAtEnd(delimiter, acc);
    } else {
      var p, rest := ps[0], ps[1..];
      ScanOne(p, delimiter, PartsText(rest, delimiter), acc);
      EndOrMore(rest, delimiter);
      hide Sendable, ScanParts, Seen;
      if rest != [] {
        ScanAll(rest, delimiter, Seen(acc, p));
      }
    }
  }

  lemma NoPartAtEnd(delimiter: string, acc: Parsed)
    ensures ScanParts("--\r\n", delimiter, acc) == acc
  {
    var s := "--\r\n";
    assert SkipLineEnd(s) == s;
    forall j: nat
      ensures !OccursAt(s, "\r\n\r\n", j) && !OccursAt(s, "\n\n", j)
    {
      if j + 2 <= |s| {
        NotAt(s, "\n\n", j, 0);
      }
      if j + 4 <= |s| {
        NotAt(s, "\r\n\r\n", j, 0);
      }
    }
    FindNone(s, "\r\n\r\n", 0);
    FindNone(s, "\n\n", 0);
  }

  lemma DelimiterFirst(s: string, d: string, more: string)
    requires s == d + more
    ensures Find(s, d, 0) == Some(0) && s[|d|..] == more
  {
    assert s[0..|d|] == d;
    FindIs(s, d, 0, 0);
  }

  const NOTHING := Parsed(map[], map[])

  /** Parsing a serialized form files each part as it is seen; where the names read back, exactly
      the parts that were sent. */
  lemma ParseSerialized(ps: seq<Part>, boundary: string)
    requires boundary != "" && NoLineEnd(boundary)
    requires forall p :: p in ps ==> Sendable(p, "--" + boundary)
    ensures ParseMultipart(Serialize(ps, boundary), boundary) == SeenAll(NOTHING, ps)
    ensures (forall p :: p in ps ==> ReadsBack(p)) ==> SeenAll(NOTHING, ps) == ExpectedAll(NOTHING, ps)
  {
    var d := "--" + boundary;
    var s := Serialize(ps, boundary);
    assert s == d + PartsText(ps, d) && NoLineEnd(d);
    hide PartsText, Serialize, ScanParts, SeenAll, ExpectedAll, ReadsBack, Sendable, Find, NoLineEnd;
    DelimiterFirst(s, d, PartsText(ps, d));
    ScanAll(ps, d, NOTHING);
    if forall p :: p in ps ==> ReadsBack(p) {
      SeenAsSent(NOTHING, ps);
    }
  }

  lemma SeenIsSent(acc: Parsed, p: Part)
    requires ReadsBack(p)
    ensures Seen(acc, p) == Expected(acc, p)
  {
    hide Trim, After;
    assert SeenFilename(p) == if p.File? then p.filename else "";
    if p.File? {
      SeenTypeIs(p);
    }
    hide SeenFilename, FilenameReadsBack, SeenType, TypeReadsBack;
  }

  lemma {:induction false} SeenAsSent(acc: Parsed, ps: seq<Part>)
    requires forall p :: p in ps ==> ReadsBack(p)
    ensures SeenAll(acc, ps) == ExpectedAll(acc, ps)
    decreases |ps|
  {
    if ps != [] {
      var p := ps[0];
      assert ReadsBack(p);
      SeenIsSent(acc, p);
      hide ReadsBack, Seen, Expected;
      SeenAsSent(Seen(acc, p), ps[1..]);
    }
  }

  // -------------------------------------------------------------------- distinct names

  /** A part the receiver keeps. */
  predicate Kept(p: Part) {
    && p.name != ""
    && (p.Field? ==> |p.value| <= MAX_FIELD_SIZE)
    && (p.File? ==> p.filename != "" && |p.data| <= MAX_FILE_SIZE)
  }

  predicate DistinctNames(ps: seq<Part>) {
    forall i, j :: 0 <= i < j < |ps| ==> ps[i].name != ps[j].name
  }

  /** What stands under a name. */
  datatype Found = Found(field: Option<string>, file: Option<MultipartFile>)

  const ABSENT := Found(None, None)

  function At(r: Parsed, name: string): Found {
    Found(if name in r.fields then Some(r.fields[name]) else None, if name in r.files then Some(r.files[name]) else None)
  }

  function AsSent(p: Part): Found {
    match p
    case Field(name, value) => Found(Some(value), None)
    case File(name, filename, contentType, data) => Found(None, Some(MultipartFile(filename, Trim(contentType), data)))
  }

  /** A value that runs over a quote keeps it. */
  lemma TrimKeepsQuote(v: string)
    ensures var t := Trim(v + "\""); t != "" && t[|t| - 1] == '"'
  {
    TrimStartKeepsLast(v, '"');
  }

  lemma {:induction false} TrimStartKeepsLast(v: string, c: char)
    requires !IsTrimmed(c)
    ensures var t := TrimStart(v + [c]); t != "" && t[|t| - 1] == c
    decreases |v|
  {
    if v != "" {
      assert (v + [c])[1..] == v[1..] + [c];
      TrimStartKeepsLast(v[1..], c);
    }
  }

  lemma SeenFilenameIs(p: Part)
    requires p.File? ==> NoQuote(p.filename)
    ensures SeenFilename(p) == (if p.File? then p.filename else "") <==> FilenameReadsBack(p)
  {
    match After(p.name, FILENAME_KEY)
    case None =>
    case Some(v) => TrimKeepsQuote(v);
  }

  lemma SeenTypeIs(p: Part)
    requires p.File?
    ensures SeenType(p) == Trim(p.contentType) <==> TypeReadsBack(p)
  {
    hide Trim, After;
  }

  /** A part alone is filed as it was sent exactly when its names read back. */
  lemma SeenExactly(p: Part)
    requires Kept(p) && (p.File? ==> NoQuote(p.filename))
    ensures At(Seen(NOTHING, p), p.name) == AsSent(p) <==> ReadsBack(p)
  {
    SeenFilenameIs(p);
    if p.File? {
      SeenTypeIs(p);
    }
    hide SeenFilename, FilenameReadsBack, SeenType, TypeReadsBack, Trim;
  }

  lemma SeenElsewhere(acc: Parsed, p: Part, name: string)
    ensures name != p.name ==> At(Seen(acc, p), name) == At(acc, name)
    ensures At(acc, p.name) == ABSENT ==> At(Seen(acc, p), p.name) == At(Seen(NOTHING, p), p.name)
  {
    hide SeenFilename, SeenType;
  }

  /** Other parts leave what stands under a name. */
  lemma {:induction false} SeenAllElsewhere(acc: Parsed, ps: seq<Part>, name: string)
    requires forall p :: p in ps ==> p.name != name
    ensures At(SeenAll(acc, ps), name) == At(acc, name)
    decreases |ps|
  {
    if ps != [] {
      SeenElsewhere(acc, ps[0], name);
      hide At, Seen;
      SeenAllElsewhere(Seen(acc, ps[0]), ps[1..], name);
    }
  }

  lemma {:induction false} SeenAllAt(acc: Parsed, ps: seq<Part>, k: nat)
    requires DistinctNames(ps) && k < |ps| && At(acc, ps[k].name) == ABSENT
    ensures At(SeenAll(acc, ps), ps[k].name) == At(Seen(NOTHING, ps[k]), ps[k].name)
    decreases |ps|
  {
    var p, name := ps[0], ps[k].name;
    SeenElsewhere(acc, p, name);
    hide At, Seen;
    if k == 0 {
      SeenAllElsewhere(Seen(acc, p), ps[1..], name);
    } else {
      SeenAllAt(Seen(acc, p), ps[1..], k - 1);
    }
  }

  /** With distinct names and sizes within the limits, what is found is what was sent exactly when
      the names read back; and nothing else is found. */
  lemma ParseDistinct(ps: seq<Part>, boundary: string)
    requires boundary != "" && NoLineEnd(boundary)
    requires DistinctNames(ps) && forall p :: p in ps ==> Sendable(p, "--" + boundary) && Kept(p)
    ensures var r := ParseMultipart(Serialize(ps, boundary), boundary);
            && ((forall p :: p in ps ==> At(r, p.name) == AsSent(p)) <==> (forall p :: p in ps ==> ReadsBack(p)))
            && (forall name :: (forall p :: p in ps ==> p.name != name) ==> At(r, name) == ABSENT)
  {
    ParseSerialized(ps, boundary);
    var r := SeenAll(NOTHING, ps);
    forall p | p in ps
      ensures At(r, p.name) == AsSent(p) <==> ReadsBack(p)
    {
      var k :| 0 <= k < |ps| && ps[k] == p;
      SeenAllAt(NOTHING, ps, k);
      SeenExactly(p);
    }
    forall name | forall p :: p in ps ==> p.name != name
      ensures At(r, name) == ABSENT
    {
      SeenAllElsewhere(NOTHING, ps, name);
    }
  }

  /** A field whose name goes on behind the keyword is filed as a file. */
  lemma FiledAsFile(boundary: string)
    requires boundary != "" && NoLineEnd(boundary)
    ensures var p := Field(FILENAME_KEY + "x", "v");
            && !ReadsBack(p)
            && At(ParseMultipart(Serialize([p], boundary), boundary), p.name) ==
               Found(None, Some(MultipartFile("x\"", "", "v")))
  {
    var p := Field(FILENAME_KEY + "x", "v");
    SeenInName(p);
    assert Find("v", "--" + boundary, 0) == None;
    assert Sendable(p, "--" + boundary);
    assert [p][1..] == [];
    hide Sendable, Serialize, ParseMultipart, SeenFilename, SeenType, ReadsBack;
    ParseSerialized([p], boundary);
    assert SeenAll(NOTHING, [p]) == Seen(NOTHING, p);
  }

  lemma SeenInName(p: Part)
    requires p == Field(FILENAME_KEY + "x", "v")
    ensures SeenFilename(p) == "x\"" && SeenType(p) == "" && !ReadsBack(p)
  {
    var s := FILENAME_KEY + "x";
    FilenameShape();
    NameSplits(s);
    TrimmedX();
    assert After(s, TYPE_KEY) == None;
    hide After, Trim;
    assert "x" + "\"" == "x\"" && FindChar("x", ';', 0) == None;
  }

  lemma NameSplits(s: string)
    requires s == FILENAME_KEY + "x"
    ensures After(s, FILENAME_KEY) == Some("x")
  {
    FilenameShape();
    assert s[0..9] == FILENAME_KEY && s[9..] == "x";
    FindIs(s, FILENAME_KEY, 0, 0);
  }

  lemma TrimmedX()
    ensures Trim("x\"") == "x\""
  {
  }

  // ------------------------------------------------------------------ the positions it keeps

  lemma OccursShift(s: string, pat: string, pos: nat, j: int)
    requires pos <= |s| && pos <= j
    ensures OccursAt(s, pat, j) <==> OccursAt(s[pos..], pat, j - pos)
  {
    if j + |pat| <= |s| {
      assert s[pos..][j - pos..j - pos + |pat|] == s[j..j + |pat|];
    }
  }

  /** Searching from a position is searching what follows it. */
  lemma FindShift(s: string, pat: string, pos: nat)
    requires pos <= |s|
    ensures Find(s, pat, pos) ==
            match Find(s[pos..], pat, 0) case None => None case Some(i) => Some(pos + i)
  {
    forall j | pos <= j
      ensures OccursAt(s, pat, j) <==> OccursAt(s[pos..], pat, j - pos)
    {
      OccursShift(s, pat, pos, j);
    }
    match Find(s[pos..], pat, 0)
    case None => FindNone(s, pat, pos);
    case Some(i) => FindIs(s, pat, pos, pos + i);
  }

  /** Where the delimiter is not found, the closing delimiter is not found either. */
  lemma NoClosingDelimiter(s: string, delimiter: string, pos: nat)
    requires Find(s, delimiter, pos) == None
    ensures Find(s, delimiter + "--", pos) == None
  {
    forall j | pos <= j
      ensures !OccursAt(s, delimiter + "--", j)
    {
      if OccursAt(s, delimiter + "--", j) {
        assert s[j..j + |delimiter|] == s[j..j + |delimiter| + 2][..|delimiter|] == delimiter;
        assert OccursAt(s, delimiter, j);
      }
    }
    FindNone(s, delimiter + "--", pos);
  }

  lemma FindFits(s: string, pat: string, from: nat, i: nat)
    requires Find(s, pat, from) == Some(i)
    ensures from <= i && i + |pat| <= |s|
  {
  }

  /** One round of the scanner in positions of the body. */
  lemma ScanAt(body: string, start: nat, pos: nat, end: nat, next: nat, delimiter: string, acc: Parsed)
    requires start < |body| && pos <= end && pos <= |body| && SkipLineEnd(body[start..]) == body[pos..]
    requires HeaderLength(body[pos..]) == Some(end - pos)
    requires Find(body, delimiter, end) == Some(next)
    ensures pos + 2 <= end <= next && next + |delimiter| <= |body|
    ensures var acc' := StorePart(acc, body[pos..end - 2], DropLineEnd(body[end..next]));
            ScanParts(body[start..], delimiter, acc) ==
            if StartsWith(body[next..], delimiter + "--") then acc'
            else ScanParts(body[next + |delimiter|..], delimiter, acc')
  {
    hide *;
    FindFits(body, delimiter, end, next);
    FindShift(body, delimiter, end);
    ScanSlices(body, pos, end, next, |delimiter|);
    ScanStep(body[start..], body[pos..], end - pos, body[end..], next - end, delimiter, acc,
             body[pos..end - 2], body[end..next], body[next..], body[next + |delimiter|..]);
  }

  lemma ScanSlices(body: string, pos: nat, end: nat, next: nat, n: nat)
    requires pos + 2 <= end <= next && next + n <= |body|
    ensures body[pos..][end - pos..] == body[end..] && body[pos..][..end - pos - 2] == body[pos..end - 2]
    ensures body[end..][..next - end] == body[end..next] && body[end..][next - end..] == body[next..]
    ensures body[end..][next - end + n..] == body[next + n..]
  {
  }

  lemma StartsAt(body: string, pat: string, pos: nat)
    requires pos <= |body|
    ensures StartsWith(body[pos..], pat) <==> pos + |pat| <= |body| && body[pos..pos + |pat|] == pat
  {
    OccursShift(body, pat, pos, pos);
  }

  lemma ScanStops(s: string, delimiter: string, acc: Parsed)
    requires s != "" ==> HeaderLength(SkipLineEnd(s)).None? ||
                         Find(SkipLineEnd(s)[HeaderLength(SkipLineEnd(s)).value..], delimiter, 0).None?
    ensures ScanParts(s, delimiter, acc) == acc
  {
  }

  // --------------------------------------------------------------------------- the parser

  method SkipLineEndAt(body: string, start: nat) returns (pos: nat)
    requires start <= |body|
    ensures start <= pos <= |body| && body[pos..] == SkipLineEnd(body[start..])
  {
    pos := start;
    if pos < |body| && body[pos] == '\r' {
      pos := pos + 1;
    }
    if pos < |body| && body[pos] == '\n' {
      pos := pos + 1;
    }
  }

  method ReadValue(header: string, start: nat) returns (value: string)
    requires start < |header|
    ensures value == ParameterValue(header[start..])
  {
    value := "";
    var pos := start;
    ghost var rest := header[start..];
    assert rest[0] == header[start];
    hide Trim;
    if header[pos] == '"' {
      ShiftChar(header, '"', pos, 1);
      pos := pos + 1;
      var end := FindChar(header, '"', pos);
      if end.Some? {
        value := header[pos..end.value];
        assert value == rest[1..end.value - start];
      }
    } else {
      ShiftChar(header, ';', pos, 0);
      var semicolon := FindChar(header, ';', pos);
      var end := if semicolon.Some? then semicolon.value else |header|;
      assert header[pos..end] == rest[..end - pos] && rest[..|rest|] == rest;
      value := Trim(header[pos..end]);
    }
  }

  method ReadParameter(header: string, key: string) returns (value: string)
    ensures value == Parameter(header, key)
  {
    hide FindChar, Trim;
    value := "";
    var found := Find(header, key, 0);
    if found.Some? {
      var pos := found.value + |key|;
      if pos < |header| {
        value := ReadValue(header, pos);
      } else {
        assert header[pos..] == "";
      }
    }
  }

  method ParseContentDisposition(header: string) returns (ok: bool, name: string, filename: string)
    ensures name == Parameter(header, "name=") && filename == Parameter(header, FILENAME_KEY)
    ensures ok <==> name != ""
  {
    name, filename := "", "";
    if header == "" {
      return false, "", "";
    }
    name := ReadParameter(header, "name=");
    filename := ReadParameter(header, FILENAME_KEY);
    ok := name != "";
  }

  /** The text from `start` to the end of its line. */
  method LineFrom(s: string, start: nat) returns (line: string)
    requires start <= |s|
    ensures line == FirstLine(s[start..])
  {
    ShiftChar(s, '\n', start, 0);
    var end := FindChar(s, '\n', start);
    if end.None? {
      return s[start..];
    }
    assert s[start..end.value] == s[start..][..end.value - start];
    return s[start..end.value];
  }

  method ReadType(headers: string) returns (contentType: string)
    ensures contentType == ContentType(headers)
  {
    contentType := "";
    var ct := Find(headers, TYPE_KEY, 0);
    if ct.Some? {
      var line := LineFrom(headers, ct.value + |TYPE_KEY|);
      contentType := Trim(line);
    }
  }

  method FilePart(fields: map<string, string>, files: map<string, MultipartFile>, headers: string, content: string)
    returns (fields': map<string, string>, files': map<string, MultipartFile>)
    ensures Parsed(fields', files') == StorePart(Parsed(fields, files), headers, content)
  {
    fields', files' := fields, files;
    var name, filename, contentType := "", "", "";
    var cd := Find(headers, "Content-Disposition:", 0);
    if cd.Some? {
      var line := LineFrom(headers, cd.value);
      var ok;
      ok, name, filename := ParseContentDisposition(line);
    }
    contentType := ReadType(headers);
    if name != "" {
      if filename != "" {
        if |content| <= MAX_FILE_SIZE {
          files' := files[name := MultipartFile(filename, contentType, content)];
        }
      } else if |content| <= MAX_FIELD_SIZE {
        fields' := fields[name := content];
      }
    }
  }

  /** The end of the header block that starts at `pos`. */
  method FindHeadersEnd(body: string, pos: nat) returns (end: Option<nat>)
    requires pos <= |body|
    ensures match HeaderLength(body[pos..])
            case None => end == None
            case Some(n) => end == Some(pos + n)
  {
    FindShift(body, "\r\n\r\n", pos);
    FindShift(body, "\n\n", pos);
    end := Find(body, "\r\n\r\n", pos);
    if end.None? {
      end := Find(body, "\n\n", pos);
      if end.Some? {
        end := Some(end.value + 2);
      }
    } else {
      end := Some(end.value + 4);
    }
  }

  /** Positions only move forward, every slice is in range, and the maps are those of the
      scan of what is left. */
  method ParseMultipartForm(body: string, boundary: string)
    returns (fields: map<string, string>, files: map<string, MultipartFile>)
    ensures Parsed(fields, files) == ParseMultipart(body, boundary)
  {
    fields, files := map[], map[];
    if body == "" || boundary == "" {
      return;
    }
    var startBoundary := "--" + boundary;
    var endBoundary := startBoundary + "--";
    var first := Find(body, startBoundary, 0);
    if first.None? {
      return;
    }
    var pos := first.value + |startBoundary|;
    FindFits(body, startBoundary, 0, first.value);
    ParseStarts(body, boundary, first.value, pos, Parsed(fields, files));
    hide *;
    var done := false;
    while !done && pos < |body|
      invariant pos <= |body|
      invariant ParseMultipart(body, boundary) ==
                if done then Parsed(fields, files) else ScanParts(body[pos..], startBoundary, Parsed(fields, files))
      decreases !done, |body| - pos
    {
      done, pos, fields, files := ParseOnePart(body, pos, startBoundary, endBoundary, fields, files);
    }
    if !done {
      ScanStops(body[pos..], startBoundary, Parsed(fields, files));
    }
  }

  lemma ParseStarts(body: string, boundary: string, i: nat, pos: nat, acc: Parsed)
    requires body != "" && boundary != "" && Find(body, "--" + boundary, 0) == Some(i)
    requires pos == i + |"--" + boundary| <= |body| && acc == Parsed(map[], map[])
    ensures ParseMultipart(body, boundary) == ScanParts(body[pos..], "--" + boundary, acc)
  {
    hide ScanParts, Find;
  }

  /** The body of the loop; `done` says that it breaks off. */
  method ParseOnePart(body: string, start: nat, startBoundary: string, endBoundary: string,
                      fields: map<string, string>, files: map<string, MultipartFile>)
    returns (done: bool, pos: nat, fields': map<string, string>, files': map<string, MultipartFile>)
    requires start < |body| && startBoundary != "" && endBoundary == startBoundary + "--"
    ensures start <= pos <= |body| && (!done ==> start < pos)
    ensures ScanParts(body[start..], startBoundary, Parsed(fields, files)) ==
            if done then Parsed(fields', files')
            else ScanParts(body[pos..], startBoundary, Parsed(fields', files'))
  {
    hide *;
    done, fields', files' := true, fields, files;
    ghost var acc := Parsed(fields, files);
    pos := SkipLineEndAt(body, start);
    var headersEnd := FindHeadersEnd(body, pos);
    if headersEnd.None? {
      ScanStops(body[start..], startBoundary, acc);
      return;
    }
    var headers := body[pos..headersEnd.value - 2];
    ghost var from := pos;
    pos := headersEnd.value;
    assert body[from..][pos - from..] == body[pos..];
    FindShift(body, startBoundary, pos);
    var next := Find(body, startBoundary, pos);
    if next.None? {
      ScanStops(body[start..], startBoundary, acc);
      NoClosingDelimiter(body, startBoundary, pos);
      next := Find(body, endBoundary, pos);
      if next.None? {
        return;
      }
    }
    ScanAt(body, start, from, pos, next.value, startBoundary, acc);
    var content := DropLineEnd(body[pos..next.value]);
    fields', files' := FilePart(fields, files, headers, content);
    pos := next.value;
    StartsAt(body, endBoundary, pos);
    if pos + |endBoundary| <= |body| && body[pos..pos + |endBoundary|] == endBoundary {
      return;
    }
    done, pos := false, pos + |startBoundary|;
  }
}
