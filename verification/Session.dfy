/** The session of one client: it accumulates reads of arbitrary size, decides when a
    request is complete, hands it over, and starts afresh once the response is sent. */
module Session {
  import opened Wrappers
  import opened Sequences
  import opened Text

  const TWO_TO_THE_64 := 0x1_0000_0000_0000_0000

  const CRLFCRLF := "\r\n\r\n"
  const LFLF := "\n\n"

  // ------------------------------------------------------------------- request framing

  predicate IsValidHttpRequest(s: string) {
    && s != ""
    && Contains(s, "HTTP/")
    && (Contains(s, "\r\n") || Contains(s, "\n"))
    && (StartsWith(s, "GET ") || StartsWith(s, "POST ") || StartsWith(s, "PUT ") || StartsWith(s, "DELETE "))
  }

  /** The text up to the first line feed, or all of it. */
  function FirstLine(s: string): string {
    match FindChar(s, '\n', 0)
    case Some(i) => s[..i]
    case None => s
  }

  predicate ValidFirstLine(s: string) {
    IsValidHttpRequest(FirstLine(s) + " HTTP/1.1\r\n\r\n")
  }

  /** A text that begins with one of the four methods; a blank or the end of the line is behind it. */
  predicate BeginsWithMethod(s: string) {
    StandsFirst(s, "GET") || StandsFirst(s, "POST") || StandsFirst(s, "PUT") || StandsFirst(s, "DELETE")
  }

  predicate StandsFirst(s: string, m: string) {
    |m| < |s| && s[..|m|] == m && (s[|m|] == ' ' || s[|m|] == '\n')
  }

  /** The first line is accepted exactly then. */
  lemma MethodDecides(s: string)
    requires '\n' in s
    ensures ValidFirstLine(s) <==> BeginsWithMethod(s)
  {
    var t := FirstLine(s) + " HTTP/1.1\r\n\r\n";
    LineIsComplete(FirstLine(s));
    LineStarts(s, "GET", "GET ");
    LineStarts(s, "POST", "POST ");
    LineStarts(s, "PUT", "PUT ");
    LineStarts(s, "DELETE", "DELETE ");
    hide FirstLine, StandsFirst, StartsWith, Contains;
  }

  /** What is put behind the first line makes the other checks pass. */
  lemma LineIsComplete(line: string)
    ensures var t := line + " HTTP/1.1\r\n\r\n"; t != "" && Contains(t, "HTTP/") && Contains(t, "\n")
  {
    var t, n, e := line + " HTTP/1.1\r\n\r\n", |line|, " HTTP/1.1\r\n\r\n";
    assert t[n + 1..n + 6] == e[1..6] == "HTTP/";
    assert OccursAt(t, "HTTP/", n + 1);
    assert t[n + 10] == e[10] == '\n';
    assert t[n + 10..n + 11] == "\n";
    assert OccursAt(t, "\n", n + 10);
  }

  lemma LineStarts(s: string, m: string, blank: string)
    requires '\n' in s && blank == m + " " && forall i :: 0 <= i < |m| ==> m[i] != ' ' && m[i] != '\n'
    ensures StartsWith(FirstLine(s) + " HTTP/1.1\r\n\r\n", blank) <==> StandsFirst(s, m)
  {
    var end := " HTTP/1.1\r\n\r\n";
    assert end[0] == ' ' && |end| == 13;
    LineStartsWith(s, m, blank, end);
  }

  lemma LineStartsWith(s: string, m: string, blank: string, end: string)
    requires '\n' in s && blank == m + " " && forall i :: 0 <= i < |m| ==> m[i] != ' ' && m[i] != '\n'
    requires end != "" && end[0] == ' '
    ensures StartsWith(FirstLine(s) + end, blank) <==> StandsFirst(s, m)
  {
    var n, k := FindChar(s, '\n', 0).value, |m|;
    var line := FirstLine(s);
    var t := line + end;
    assert line == s[..n] && t[n] == ' ' && forall i :: 0 <= i < n ==> t[i] == s[i];
    if StartsWith(t, blank) {
      assert t[0..k + 1] == blank;
      assert forall i :: 0 <= i < k ==> t[i] == blank[i] == m[i];
      assert t[k] == blank[k] == ' ';
      assert k <= n;
      assert s[..k] == m;
    }
    if StandsFirst(s, m) {
      assert forall i :: 0 <= i < k ==> s[i] == s[..k][i] == m[i];
      assert k <= n;
      assert t[0..k + 1] == blank;
    }
  }

  predicate IsBlank(c: char) {
    c == ' ' || c == '\t' || c == '\r'
  }

  function TrimLeft(s: string): string {
    if s != "" && IsBlank(s[0]) then TrimLeft(s[1..]) else s
  }

  function TrimRight(s: string): string {
    if s != "" && IsBlank(s[|s| - 1]) then TrimRight(s[..|s| - 1]) else s
  }

  predicate IsWhite(c: char) {
    IsBlank(c) || c == '\n' || c == 11 as char || c == 12 as char
  }

  function DigitsValue(s: string, value: nat): nat
    decreases |s|
  {
    if s != "" && '0' <= s[0] <= '9' then DigitsValue(s[1..], 10 * value + (s[0] as int - '0' as int)) else value
  }

  /** stoul: leading white space, an optional sign, digits, then anything.  Nothing is
      returned where the library throws: no digits, or a value above 64 bits. */
  function Stoul(s: string): Option<nat>
    decreases |s|
  {
    if s == "" then None
    else if IsWhite(s[0]) then Stoul(s[1..])
    else
      var signed := s[0] == '+' || s[0] == '-';
      var digits := if signed then s[1..] else s;
      if digits == "" || !('0' <= digits[0] <= '9') then None
      else
        var v := DigitsValue(digits, 0);
        if v >= TWO_TO_THE_64 then None
        else Some(if s[0] == '-' then (TWO_TO_THE_64 - v) % TWO_TO_THE_64 else v)
  }

  /** The content length a header block announces; nothing where the conversion throws.
      A header that is the last line of the block is not terminated there and counts as
      absent. */
  function ContentLength(headers: string): Option<nat> {
    var pos := match Find(headers, "Content-Length:", 0)
               case Some(i) => Some(i)
               case None => Find(headers, "content-length:", 0);
    if pos.None? then Some(0)
    else
      var start := FindChar(headers, ':', pos.value);
      if start.None? then Some(0)
      else
        var end := FindChar(headers, '\n', start.value + 1);
        if end.None? then Some(0)
        else Stoul(TrimRight(TrimLeft(headers[start.value + 1..end.value])))
  }

  /** Where the header block ends. */
  function HeaderEnd(s: string): Option<nat> {
    match Find(s, CRLFCRLF, 0)
    case Some(i) => Some(i)
    case None => Find(s, LFLF, 0)
  }

  datatype Verdict = Wait | BadRequest | Dispatch(request: string) | Throw

  /** What a read makes of the data accumulated so far. */
  function Judge(s: string): Verdict {
    var end := HeaderEnd(s);
    if end.None? then Wait
    else if Contains(s, "HTTP/") && !ValidFirstLine(s) then BadRequest
    else
      var length := ContentLength(s[..end.value]);
      if length.None? then Throw
      else
        var separator := if Contains(s, CRLFCRLF) then 4 else 2;
        var total := (end.value + separator + length.value) % TWO_TO_THE_64;
        if |s| >= total then Dispatch(s[..total]) else Wait
  }

  /** Exactly which requests are answered 400: those with complete headers and a version somewhere
      that begin with none of the four methods. */
  lemma Refused(s: string)
    ensures Judge(s) == BadRequest <==>
            && (Contains(s, "\r\n\r\n") || Contains(s, "\n\n")) && Contains(s, "HTTP/")
            && !BeginsWithMethod(s)
  {
    var end := HeaderEnd(s);
    if end.Some? {
      EndHasFeed(s, end.value);
      MethodDecides(s);
    }
    hide Find, ContentLength, ValidFirstLine, BeginsWithMethod;
  }

  lemma FirstLineAccepted(s: string)
    requires HeaderEnd(s).Some?
    ensures ValidFirstLine(s) <==> BeginsWithMethod(s)
  {
    EndHasFeed(s, HeaderEnd(s).value);
    hide *;
    MethodDecides(s);
  }

  lemma EndHasFeed(s: string, end: nat)
    requires HeaderEnd(s) == Some(end)
    ensures '\n' in s
  {
    if Find(s, CRLFCRLF, 0).Some? {
      assert s[end + 1] == s[end..end + 4][1];
    } else {
      assert s[end] == s[end..end + 2][0];
    }
  }

  // ------------------------------------------------------------------- the state machine

  datatype Phase = Reading | Writing | Closed

  datatype Entry = Dispatched(request: string) | Rejected

  /** The accumulated data, what the session is waiting for, and what it handed over. */
  datatype State = State(data: string, phase: Phase, log: seq<Entry>)

  datatype Event = Read(chunk: string) | Written

  const START := State("", Reading, [])

  function OnRead(st: State, chunk: string): State {
    var s := st.data + chunk;
    match Judge(s)
    case Wait => State(s, Reading, st.log)
    case BadRequest => State(s, Writing, st.log + [Rejected])
    case Dispatch(r) => State(r, Writing, st.log + [Dispatched(r)])
    case Throw => State(s, Closed, st.log)
  }

  /** Events that do not belong to the phase do not happen. */
  function OnEvent(st: State, e: Event): State {
    match e
    case Read(chunk) => if st.phase == Reading then OnRead(st, chunk) else st
    case Written => if st.phase == Writing then State("", Reading, st.log) else st
  }

  function Run(st: State, es: seq<Event>): State
    decreases |es|
  {
    if es == [] then st else Run(OnEvent(st, es[0]), es[1..])
  }

  lemma {:induction false} RunConcat(st: State, a: seq<Event>, b: seq<Event>)
    ensures Run(st, a + b) == Run(Run(st, a), b)
    decreases |a|
  {
    if a == [] {
      assert a + b == b;
    } else {
      assert (a + b)[1..] == a[1..] + b;
      RunConcat(OnEvent(st, a[0]), a[1..], b);
    }
  }

  // ------------------------------------------------------------- requests and splittings

  /** The header block ends in CRLFCRLF at `h`, with no LFLF before. */
  predicate HeadersEndAt(r: string, h: nat) {
    && Find(r, CRLFCRLF, 0) == Some(h)
    && forall i :: 0 <= i <= h + 2 ==> !OccursAt(r, LFLF, i)
  }

  /** A request as the session understands it: it is as long as it says. */
  predicate WellFramed(r: string, h: nat) {
    && HeadersEndAt(r, h)
    && (Contains(r, "HTTP/") ==> BeginsWithMethod(r))
    && ContentLength(r[..h]).Some?
    && |r| == h + 4 + ContentLength(r[..h]).value
    && |r| < TWO_TO_THE_64
  }

  /** No read that ends before the CRLFCRLF takes an earlier LFLF for the end of the headers and
      what came for the whole request. */
  predicate LfWaits(r: string, h: nat) {
    match Find(r, LFLF, 0)
    case None => true
    case Some(g) =>
      g < h ==>
        var length := ContentLength(r[..g]);
        length.Some? && Total(g, false, length.value) > h + 3
  }

  /** Any request as the session understands it: with its headers ended by CRLFCRLF, or by
      LFLF when there is none. */
  predicate Framed(r: string) {
    var end, crlf := HeaderEnd(r), Contains(r, CRLFCRLF);
    && end.Some? && (Contains(r, "HTTP/") ==> BeginsWithMethod(r))
    && ContentLength(r[..end.value]).Some?
    && |r| == end.value + Separator(crlf) + ContentLength(r[..end.value]).value
    && (crlf ==> LfWaits(r, end.value))
  }

  function Separator(crlf: bool): nat {
    if crlf then 4 else 2
  }

  /** The expected size, a sum in 64 bits. */
  function Total(end: nat, crlf: bool, length: nat): nat {
    (end + Separator(crlf) + length) % TWO_TO_THE_64
  }

  /** Where the headers end, by which separator, and a first line that is accepted. */
  predicate HeadersFound(s: string, end: nat, crlf: bool) {
    && HeaderEnd(s) == Some(end) && Contains(s, CRLFCRLF) == crlf
    && (Contains(s, "HTTP/") ==> ValidFirstLine(s))
  }

  function Flatten(chunks: seq<string>): string {
    if chunks == [] then "" else chunks[0] + Flatten(chunks[1..])
  }

  /** The chunks of the reads in which `r` arrives; a read that succeeds is not empty. */
  predicate IsSplit(chunks: seq<string>, r: string) {
    Flatten(chunks) == r && forall i :: 0 <= i < |chunks| ==> chunks[i] != ""
  }

  function Reads(chunks: seq<string>): seq<Event> {
    if chunks == [] then [] else [Read(chunks[0])] + Reads(chunks[1..])
  }

  // ----------------------------------------------------------- what a prefix looks like

  lemma PrefixFinds(r: string, n: nat, pat: string, h: nat)
    requires n <= |r| && Find(r, pat, 0) == Some(h)
    ensures Find(r[..n], pat, 0) == if h + |pat| <= n then Some(h) else None
  {
    var p := r[..n];
    forall j
      ensures OccursAt(p, pat, j) <==> OccursAt(r, pat, j) && j + |pat| <= n
    {
      OccursInPrefix(r, n, pat, j);
    }
    if h + |pat| <= n {
      FindIs(p, pat, 0, h);
    } else {
      FindNone(p, pat, 0);
    }
  }

  lemma PrefixContains(r: string, n: nat, pat: string)
    requires n <= |r| && Contains(r[..n], pat)
    ensures Contains(r, pat)
  {
    var i := Find(r[..n], pat, 0).value;
    OccursInPrefix(r, n, pat, i);
  }

  lemma PrefixFirstLine(r: string, n: nat, i: nat)
    requires i < n <= |r| && r[i] == '\n'
    ensures FirstLine(r[..n]) == FirstLine(r)
  {
    var k := FindChar(r, '\n', 0).value;
    assert k <= i;
    FindCharIs(r[..n], '\n', 0, k);
    assert r[..n][..k] == r[..k];
  }

  /** Before the end of the headers nothing is decided. */
  lemma WaitsForHeaders(r: string, h: nat, n: nat)
    requires HeadersEndAt(r, h) && n < h + 4 && n <= |r|
    ensures Judge(r[..n]) == Wait
  {
    PrefixFinds(r, n, CRLFCRLF, h);
    forall j
      ensures !OccursAt(r[..n], LFLF, j)
    {
      OccursInPrefix(r, n, LFLF, j);
    }
    FindNone(r[..n], LFLF, 0);
  }

  /** From there on every prefix is judged by the headers of the whole. */
  lemma JudgeWithHeaders(r: string, h: nat, n: nat)
    requires HeadersEndAt(r, h) && h + 4 <= n <= |r|
    ensures HeaderEnd(r[..n]) == Some(h) && Contains(r[..n], CRLFCRLF)
    ensures r[..n][..h] == r[..h]
    ensures Contains(r[..n], "HTTP/") && !ValidFirstLine(r[..n]) ==> Contains(r, "HTTP/") && !ValidFirstLine(r)
  {
    PrefixFinds(r, n, CRLFCRLF, h);
    assert r[h..h + 4][1] == '\n';
    PrefixFirstLine(r, n, h + 1);
    if Contains(r[..n], "HTTP/") {
      PrefixContains(r, n, "HTTP/");
    }
  }

  /** No proper prefix of a well-framed request is acted on, and the whole is dispatched. */
  lemma PrefixWaits(r: string, h: nat, n: nat)
    requires WellFramed(r, h) && n <= |r|
    ensures Judge(r[..n]) == if n < |r| then Wait else Dispatch(r)
  {
    WellFramedTotal(r, h);
    if n < h + 4 {
      assert HeadersEndAt(r, h);
      hide *;
      WaitsForHeaders(r, h, n);
    } else {
      hide *;
      CrlfHeaders(r, h, n);
      PrefixJudged(r, n, h, true, |r|);
      assert r[..|r|] == r;
    }
  }

  lemma WellFramedTotal(r: string, h: nat)
    requires WellFramed(r, h)
    ensures HeadersFound(r, h, true) && h + 4 <= |r| && ContentLength(r[..h]).Some?
    ensures |r| == Total(h, true, ContentLength(r[..h]).value)
  {
    EndIsFound(r, h);
    hide HeadersFound, HeadersEndAt, BeginsWithMethod, ContentLength, Contains;
  }

  /** A header block ending in CRLFCRLF: the whole is dispatched in one read exactly when
      the request is well framed. */
  lemma WholeDispatched(r: string, h: nat)
    requires HeadersEndAt(r, h) && |r| < TWO_TO_THE_64
    ensures Judge(r) == Dispatch(r) <==> WellFramed(r, h)
  {
    assert r[..|r|] == r;
    if WellFramed(r, h) {
      PrefixWaits(r, h, |r|);
    }
    if Judge(r) == Dispatch(r) {
      DispatchedIsFramed(r, h);
    }
  }

  lemma DispatchedIsFramed(r: string, h: nat)
    requires HeadersEndAt(r, h) && |r| < TWO_TO_THE_64 && Judge(r) == Dispatch(r)
    ensures WellFramed(r, h)
  {
    var end := TakenHeaders(r);
    HeadersEnd(r, end, Contains(r, CRLFCRLF));
    assert end == h && Contains(r, CRLFCRLF) by {
      hide ContentLength, ValidFirstLine;
    }
    TakenTotal(r, h, true);
    FirstLineAccepted(r);
    hide Find, ContentLength, ValidFirstLine, BeginsWithMethod, Judge, HeaderEnd, OccursAt;
  }

  /** A size that wrapped around would be smaller than the header block. */
  lemma NoWrap(h: nat, separator: nat, length: nat, size: nat)
    requires length < TWO_TO_THE_64 && h + separator <= size < TWO_TO_THE_64
    requires (h + separator + length) % TWO_TO_THE_64 == size
    ensures size == h + separator + length
  {
  }

  lemma ContentLengthFits(headers: string)
    ensures ContentLength(headers).Some? ==> ContentLength(headers).value < TWO_TO_THE_64
  {
    forall s: string
      ensures Stoul(s).Some? ==> Stoul(s).value < TWO_TO_THE_64
    {
      StoulFits(s);
    }
    hide Find, FindChar, Stoul;
  }

  lemma {:induction false} StoulFits(s: string)
    ensures Stoul(s).Some? ==> Stoul(s).value < TWO_TO_THE_64
    decreases |s|
  {
    if s != "" && IsWhite(s[0]) {
      StoulFits(s[1..]);
    }
  }

  // ------------------------------------------------------------------------- whole runs

  lemma NothingLeft(chunks: seq<string>)
    requires forall i :: 0 <= i < |chunks| ==> chunks[i] != ""
    ensures Flatten(chunks) == "" ==> chunks == []
  {
  }

  /** No proper prefix is acted on, and the whole is dispatched. */
  ghost predicate TakenWhole(r: string) {
    Judge(r) == Dispatch(r) && forall n :: 0 <= n < |r| ==> Judge(r[..n]) == Wait
  }

  /** Reading the chunks of one request, the first `n` characters of which have arrived. */
  lemma {:induction false} ReadRequest(r: string, n: nat, chunks: seq<string>, log: seq<Entry>)
    requires TakenWhole(r) && n < |r| && IsSplit(chunks, r[n..])
    ensures Run(State(r[..n], Reading, log), Reads(chunks)) == State(r, Writing, log + [Dispatched(r)])
    decreases |chunks|
  {
    hide Judge;
    var c, rest := chunks[0], chunks[1..];
    var m := n + |c|;
    ChunkArrives(r, n, c, Flatten(rest));
    if m < |r| {
      ReadRequest(r, m, rest, log);
    } else {
      NothingLeft(rest);
      assert r[..m] == r;
    }
  }

  lemma ChunkArrives(r: string, n: nat, c: string, rest: string)
    requires n <= |r| && r[n..] == c + rest
    ensures n + |c| <= |r| && r[..n] + c == r[..n + |c|] && r[n + |c|..] == rest
  {
    assert r[n..][..|c|] == c && r[n..][|c|..] == rest;
  }

  /** One request of a client that waits for the response. */
  function Exchange(chunks: seq<string>): seq<Event> {
    Reads(chunks) + [Written]
  }

  /** A request on its way: its text and the reads it arrives in. */
  datatype Sent = Sent(text: string, chunks: seq<string>)

  predicate Proper(s: Sent) {
    Framed(s.text) && |s.text| < TWO_TO_THE_64 && IsSplit(s.chunks, s.text)
  }

  function Exchanges(sent: seq<Sent>): seq<Event> {
    if sent == [] then [] else Exchange(sent[0].chunks) + Exchanges(sent[1..])
  }

  function Dispatches(sent: seq<Sent>): seq<Entry> {
    if sent == [] then [] else [Dispatched(sent[0].text)] + Dispatches(sent[1..])
  }

  lemma OneExchange(r: string, chunks: seq<string>, log: seq<Entry>)
    requires TakenWhole(r) && IsSplit(chunks, r)
    ensures Run(State("", Reading, log), Exchange(chunks)) == State("", Reading, log + [Dispatched(r)])
  {
    assert Judge("") == Wait;
    hide Judge;
    assert r[..0] == "" && r[0..] == r;
    ReadRequest(r, 0, chunks, log);
    RunConcat(State("", Reading, log), Reads(chunks), [Written]);
    assert [Written][1..] == [];
  }

  lemma ServeOne(s: Sent, log: seq<Entry>)
    requires Proper(s)
    ensures Run(State("", Reading, log), Exchange(s.chunks)) == State("", Reading, log + [Dispatched(s.text)])
  {
    FramedIsTaken(s.text);
    OneExchange(s.text, s.chunks, log);
  }

  /** A client that waits for each response is served the same requests, whole and in
      order, and never a rejection, however each of them is split into reads. */
  lemma {:induction false} SplittingDoesNotMatter(sent: seq<Sent>, log: seq<Entry>)
    requires forall i :: 0 <= i < |sent| ==> Proper(sent[i])
    ensures Run(State("", Reading, log), Exchanges(sent)) == State("", Reading, log + Dispatches(sent))
    decreases |sent|
  {
    if sent == [] {
      assert log + [] == log;
    } else {
      var first, rest := sent[0], sent[1..];
      hide Exchange, OnEvent, Proper, Run;
      ServeOne(first, log);
      RunConcat(State("", Reading, log), Exchange(first.chunks), Exchanges(rest));
      SplittingDoesNotMatter(rest, log + [Dispatched(first.text)]);
      Regroup(log, [Dispatched(first.text)], Dispatches(rest), []);
    }
  }

  /** Every splitting of `r` hands over `r` and nothing else. */
  ghost predicate SplittingIndependent(r: string) {
    forall chunks :: IsSplit(chunks, r) ==> Run(START, Reads(chunks)) == State(r, Writing, [Dispatched(r)])
  }

  /** Being framed is exactly what it takes for every splitting to hand the request over whole,
      whatever the text. */
  lemma ExactlyTheFramed(r: string)
    requires |r| < TWO_TO_THE_64
    ensures SplittingIndependent(r) <==> Framed(r)
  {
    hide Framed, TakenWhole, Run, Judge;
    if Framed(r) {
      FramedIsTaken(r);
      forall chunks | IsSplit(chunks, r)
        ensures Run(START, Reads(chunks)) == State(r, Writing, [Dispatched(r)])
      {
        FromStart(r, chunks);
      }
    }
    if SplittingIndependent(r) {
      IndependentIsTaken(r);
      TakenIsFramed(r);
    }
  }

  /** For a header block that ends in CRLFCRLF with no LFLF before, that is to be well framed. */
  lemma ExactlyTheWellFramed(r: string, h: nat)
    requires HeadersEndAt(r, h) && |r| < TWO_TO_THE_64
    ensures SplittingIndependent(r) <==> WellFramed(r, h)
  {
    ExactlyTheFramed(r);
    assert r[..|r|] == r;
    NotEmpty(r, h);
    JudgeWithHeaders(r, h, |r|);
    hide SplittingIndependent, ValidFirstLine, ContentLength;
  }

  lemma FromStart(r: string, chunks: seq<string>)
    requires TakenWhole(r) && IsSplit(chunks, r)
    ensures Run(START, Reads(chunks)) == State(r, Writing, [Dispatched(r)])
  {
    assert Judge("") == Wait;
    hide Judge;
    assert r[..0] == "" && r[0..] == r;
    ReadRequest(r, 0, chunks, []);
  }

  lemma IndependentIsTaken(r: string)
    requires SplittingIndependent(r)
    ensures TakenWhole(r)
  {
    assert Judge("") == Wait;
    hide SplittingIndependent, Judge;
    if r == "" {
      NoRead(r);
    } else {
      OneRead(r);
      forall n | 0 <= n < |r|
        ensures Judge(r[..n]) == Wait
      {
        if n > 0 {
          assert r[..n] + r[n..] == r;
          TwoReads(r[..n], r[n..]);
        }
      }
    }
  }

  lemma NoRead(r: string)
    requires SplittingIndependent(r)
    ensures r != ""
  {
    assert Flatten([]) == "" && IsSplit([], "");
    assert Reads([]) == [] && Run(START, []) == START;
  }

  lemma OneRead(r: string)
    requires SplittingIndependent(r) && r != ""
    ensures Judge(r) == Dispatch(r)
  {
    hide Judge;
    var whole := [r];
    assert whole[1..] == [];
    assert Flatten(whole) == r + Flatten([]) == r;
    assert IsSplit(whole, r);
    assert Reads(whole) == [Read(r)] + Reads([]) == [Read(r)];
    assert Run(START, [Read(r)]) == Run(OnRead(START, r), [Read(r)][1..]);
    assert "" + r == r;
    assert START.log + [Rejected] == [Rejected];
  }

  lemma TwoReads(a: string, b: string)
    requires SplittingIndependent(a + b) && a != "" && b != ""
    ensures Judge(a) == Wait
  {
    TwoChunks(a, b);
    hide IsSplit, Reads, Run, Judge;
    assert "" + a == a;
    assert Run(START, Reads([a, b])) == State(a + b, Writing, [Dispatched(a + b)]);
    FirstDecides(a, b);
  }

  /** What the first read decides the second does not change. */
  lemma FirstDecides(a: string, b: string)
    requires b != ""
    requires OnEvent(OnEvent(START, Read(a)), Read(b)) == State(a + b, Writing, [Dispatched(a + b)])
    ensures Judge(a) == Wait
  {
    JudgedPart(a);
    assert "" + a == a;
    hide Judge;
  }

  lemma TwoChunks(a: string, b: string)
    requires a != "" && b != ""
    ensures IsSplit([a, b], a + b)
    ensures Run(START, Reads([a, b])) == OnEvent(OnEvent(START, Read(a)), Read(b))
  {
    hide OnEvent;
    var two, es := [a, b], [Read(a), Read(b)];
    assert two[1..] == [b] && [b][1..] == [];
    assert Flatten([b]) == b + Flatten([]) == b;
    assert Flatten(two) == a + Flatten([b]);
    assert Reads([b]) == [Read(b)] + Reads([]) == [Read(b)];
    assert Reads(two) == [Read(a)] + Reads([b]) == es;
    assert es[1..] == [Read(b)] && [Read(b)][1..] == [];
    assert Run(START, es) == Run(OnEvent(START, Read(a)), [Read(b)]);
    assert Run(OnEvent(START, Read(a)), [Read(b)]) == Run(OnEvent(OnEvent(START, Read(a)), Read(b)), []);
  }

  /** What is dispatched is no longer than what came. */
  lemma JudgedPart(s: string)
    ensures Judge(s).Dispatch? ==> |Judge(s).request| <= |s|
  {
    hide Find, ContentLength, ValidFirstLine;
  }

  // ----------------------------------------------------------------- any framed request

  lemma FramedIsTaken(r: string)
    requires Framed(r) && |r| < TWO_TO_THE_64
    ensures TakenWhole(r)
  {
    hide Framed, Judge;
    assert r[..|r|] == r;
    forall n | 0 <= n <= |r|
      ensures Judge(r[..n]) == if n < |r| then Wait else Dispatch(r)
    {
      FramedPrefix(r, n);
    }
  }

  lemma NoEndWaits(p: string)
    requires HeaderEnd(p) == None
    ensures Judge(p) == Wait
  {
    hide HeaderEnd;
  }

  /** A text is judged by the headers that end in it. */
  lemma JudgedBy(p: string, end: nat, crlf: bool, headers: string)
    requires HeadersFound(p, end, crlf) && end <= |p| && p[..end] == headers
    ensures Judge(p) == match ContentLength(headers)
                        case None => Throw
                        case Some(length) =>
                          var total := Total(end, crlf, length);
                          if |p| >= total then Dispatch(p[..total]) else Wait
  {
    hide ContentLength, ValidFirstLine, HeaderEnd, Contains;
  }

  lemma FirstLineOk(r: string, n: nat, i: nat)
    requires i < n <= |r| && r[i] == '\n' && (Contains(r, "HTTP/") ==> ValidFirstLine(r))
    ensures Contains(r[..n], "HTTP/") ==> ValidFirstLine(r[..n])
  {
    PrefixFirstLine(r, n, i);
    if Contains(r[..n], "HTTP/") {
      PrefixContains(r, n, "HTTP/");
    }
    hide Find, FindChar, IsValidHttpRequest;
  }

  lemma PrefixLacks(r: string, n: nat, pat: string)
    requires n <= |r| && Find(r, pat, 0).None?
    ensures Find(r[..n], pat, 0) == None
  {
    forall j
      ensures !OccursAt(r[..n], pat, j)
    {
      OccursInPrefix(r, n, pat, j);
    }
    FindNone(r[..n], pat, 0);
  }

  /** A prefix of another prefix. */
  lemma Shorter(r: string, n: nat, end: nat)
    requires end <= n <= |r|
    ensures r[..n][..end] == r[..end] && |r[..n]| == n
  {
  }

  /** Both line feeds of an LFLF. */
  lemma LfFound(r: string, g: nat)
    requires Find(r, LFLF, 0) == Some(g)
    ensures g + 2 <= |r| && r[g] == '\n' && r[g + 1] == '\n'
  {
    assert r[g] == r[g..g + 2][0] && r[g + 1] == r[g..g + 2][1];
  }

  lemma CrlfFound(r: string, h: nat)
    requires Find(r, CRLFCRLF, 0) == Some(h)
    ensures h + 4 <= |r| && r[h] == '\r' && r[h + 1] == '\n' && r[h + 2] == '\r'
  {
    assert r[h] == r[h..h + 4][0] && r[h + 1] == r[h..h + 4][1] && r[h + 2] == r[h..h + 4][2];
  }

  lemma LfHeaders(r: string, g: nat, n: nat)
    requires HeadersFound(r, g, false) && n <= |r|
    ensures g + 2 <= |r|
    ensures if n < g + 2 then HeaderEnd(r[..n]) == None else HeadersFound(r[..n], g, false)
  {
    PrefixLacks(r, n, CRLFCRLF);
    PrefixFinds(r, n, LFLF, g);
    LfFound(r, g);
    if n >= g + 2 {
      FirstLineOk(r, n, g);
    }
    hide Find, ValidFirstLine;
  }

  lemma CrlfHeaders(r: string, h: nat, n: nat)
    requires HeadersFound(r, h, true) && n <= |r| && h + 4 <= n
    ensures HeadersFound(r[..n], h, true)
  {
    PrefixFinds(r, n, CRLFCRLF, h);
    CrlfFound(r, h);
    FirstLineOk(r, n, h + 1);
    hide Find, ValidFirstLine;
  }

  /** An LFLF that starts in front of the CRLFCRLF does not reach into it. */
  lemma LfBefore(r: string, h: nat, g: nat)
    requires Find(r, CRLFCRLF, 0) == Some(h) && Find(r, LFLF, 0) == Some(g) && g + 2 < h + 4
    ensures g < h
  {
    CrlfFound(r, h);
    LfFound(r, g);
    hide Find;
  }

  /** In front of the CRLFCRLF an earlier LFLF ends the headers, if there is one. */
  lemma EarlyHeaders(r: string, h: nat, n: nat)
    requires HeadersFound(r, h, true) && n <= |r| && n < h + 4
    ensures h + 4 <= |r|
    ensures match Find(r, LFLF, 0)
            case None => HeaderEnd(r[..n]) == None
            case Some(g) =>
              if n < g + 2 then HeaderEnd(r[..n]) == None else g < h && HeadersFound(r[..n], g, false)
  {
    PrefixFinds(r, n, CRLFCRLF, h);
    CrlfFound(r, h);
    hide Find, FindChar, ValidFirstLine, OccursAt;
    var lf := Find(r, LFLF, 0);
    if lf.None? {
      PrefixLacks(r, n, LFLF);
    } else {
      EarlyLf(r, h, lf.value, n);
    }
  }

  lemma EarlyLf(r: string, h: nat, g: nat, n: nat)
    requires HeadersFound(r, h, true) && n <= |r| && n < h + 4
    requires Find(r[..n], CRLFCRLF, 0).None? && Find(r, LFLF, 0) == Some(g)
    ensures if n < g + 2 then HeaderEnd(r[..n]) == None else g < h && HeadersFound(r[..n], g, false)
  {
    PrefixFinds(r, n, LFLF, g);
    LfFound(r, g);
    if n >= g + 2 {
      LfBefore(r, h, g);
      FirstLineOk(r, n, g);
    }
    hide Find, FindChar, ValidFirstLine, OccursAt;
  }

  /** A prefix is judged by its headers, with the length they announce. */
  lemma PrefixJudged(r: string, n: nat, end: nat, crlf: bool, total: nat)
    requires end <= n <= |r| && HeadersFound(r[..n], end, crlf) && ContentLength(r[..end]).Some?
    requires total == Total(end, crlf, ContentLength(r[..end]).value)
    ensures Judge(r[..n]) == if n >= total then Dispatch(r[..total]) else Wait
  {
    hide *;
    Shorter(r, n, end);
    JudgedBy(r[..n], end, crlf, r[..end]);
    if n >= total {
      Shorter(r, n, total);
    }
  }

  lemma FramedTotal(r: string, end: nat, crlf: bool)
    requires Framed(r) && |r| < TWO_TO_THE_64 && HeadersFound(r, end, crlf)
    ensures end <= |r| && ContentLength(r[..end]).Some?
    ensures |r| == Total(end, crlf, ContentLength(r[..end]).value)
    ensures crlf ==> LfWaits(r, end)
    ensures r[..|r|] == r
  {
    hide ContentLength, HeaderEnd, Find, ValidFirstLine, Contains, LfWaits;
  }

  lemma LfPrefix(r: string, g: nat, n: nat)
    requires Framed(r) && |r| < TWO_TO_THE_64 && n <= |r| && HeadersFound(r, g, false)
    ensures Judge(r[..n]) == if n < |r| then Wait else Dispatch(r)
  {
    hide *;
    LfHeaders(r, g, n);
    FramedTotal(r, g, false);
    if n < g + 2 {
      NoEndWaits(r[..n]);
    } else {
      PrefixJudged(r, n, g, false, |r|);
    }
  }

  lemma EarlyPrefix(r: string, h: nat, n: nat)
    requires n <= |r| && HeadersFound(r, h, true) && n < h + 4 && LfWaits(r, h)
    ensures Judge(r[..n]) == Wait && n < |r|
  {
    EarlyHeaders(r, h, n);
    var lf := Find(r, LFLF, 0);
    hide ContentLength, Judge, HeaderEnd, Find, ValidFirstLine, Contains, HeadersFound, OccursAt, Total;
    if lf.None? || n < lf.value + 2 {
      NoEndWaits(r[..n]);
    } else {
      LfPrefixWaits(r, n, lf.value, h);
    }
  }

  lemma LfPrefixWaits(r: string, n: nat, g: nat, h: nat)
    requires g <= n <= |r| && n < h + 4 && HeadersFound(r[..n], g, false) && ContentLength(r[..g]).Some?
    requires Total(g, false, ContentLength(r[..g]).value) > h + 3
    ensures Judge(r[..n]) == Wait
  {
    hide *;
    PrefixJudged(r, n, g, false, Total(g, false, ContentLength(r[..g]).value));
  }

  lemma CrlfPrefix(r: string, h: nat, n: nat)
    requires Framed(r) && |r| < TWO_TO_THE_64 && n <= |r| && HeadersFound(r, h, true) && h + 4 <= n
    ensures Judge(r[..n]) == if n < |r| then Wait else Dispatch(r)
  {
    hide *;
    CrlfHeaders(r, h, n);
    FramedTotal(r, h, true);
    PrefixJudged(r, n, h, true, |r|);
  }

  lemma FramedPrefix(r: string, n: nat)
    requires Framed(r) && |r| < TWO_TO_THE_64 && n <= |r|
    ensures Judge(r[..n]) == if n < |r| then Wait else Dispatch(r)
  {
    var end := FramedHeaders(r);
    hide *;
    if !Contains(r, CRLFCRLF) {
      LfPrefix(r, end, n);
    } else if n < end + 4 {
      FramedTotal(r, end, true);
      EarlyPrefix(r, end, n);
    } else {
      CrlfPrefix(r, end, n);
    }
  }

  lemma FramedHeaders(r: string) returns (end: nat)
    requires Framed(r)
    ensures HeadersFound(r, end, Contains(r, CRLFCRLF))
  {
    FirstLineAccepted(r);
    hide HeaderEnd, ValidFirstLine, BeginsWithMethod, ContentLength, Contains, LfWaits;
    end := HeaderEnd(r).value;
  }

  /** What is taken whole has the length it announces, and waited for it. */
  lemma TakenIsFramed(r: string)
    requires TakenWhole(r) && |r| < TWO_TO_THE_64
    ensures Framed(r)
  {
    var end := TakenHeaders(r);
    var crlf := Contains(r, CRLFCRLF);
    HeadersEnd(r, end, crlf);
    TakenTotal(r, end, crlf);
    if crlf {
      TakenWaits(r, end);
    }
    FirstLineAccepted(r);
    hide ContentLength, ValidFirstLine, BeginsWithMethod, HeaderEnd, Judge, Find, LfWaits, Contains;
  }

  lemma TakenTotal(r: string, end: nat, crlf: bool)
    requires Judge(r) == Dispatch(r) && |r| < TWO_TO_THE_64
    requires HeadersFound(r, end, crlf) && end + Separator(crlf) <= |r|
    ensures ContentLength(r[..end]).Some? && |r| == end + Separator(crlf) + ContentLength(r[..end]).value
  {
    hide *;
    ContentLengthFits(r[..end]);
    JudgedBy(r, end, crlf, r[..end]);
    TotalIs(end, crlf, ContentLength(r[..end]).value, |r|);
  }

  lemma TotalIs(end: nat, crlf: bool, length: nat, size: nat)
    requires length < TWO_TO_THE_64 && end + Separator(crlf) <= size < TWO_TO_THE_64
    ensures Total(end, crlf, length) == size ==> size == end + Separator(crlf) + length
  {
    hide Separator;
    if Total(end, crlf, length) == size {
      NoWrap(end, Separator(crlf), length, size);
    }
  }

  lemma HeadersEnd(r: string, end: nat, crlf: bool)
    requires HeadersFound(r, end, crlf)
    ensures HeaderEnd(r) == Some(end) && end + Separator(crlf) <= |r|
  {
    if crlf {
      CrlfFound(r, end);
    } else {
      LfFound(r, end);
    }
  }

  lemma TakenHeaders(r: string) returns (end: nat)
    requires Judge(r) == Dispatch(r)
    ensures HeadersFound(r, end, Contains(r, CRLFCRLF))
  {
    hide ContentLength, ValidFirstLine, HeaderEnd, Contains;
    end := HeaderEnd(r).value;
  }

  /** The longest prefix without the CRLFCRLF waited. */
  lemma TakenWaits(r: string, h: nat)
    requires TakenWhole(r) && HeadersFound(r, h, true) && h + 4 <= |r|
    ensures LfWaits(r, h)
  {
    EarlyHeaders(r, h, h + 3);
    PrefixWaited(r, h + 3);
    var lf := Find(r, LFLF, 0);
    hide ContentLength, Judge, HeaderEnd, Find, ValidFirstLine, Contains, HeadersFound, OccursAt, TakenWhole, Total;
    if lf.Some? && lf.value < h {
      LfWaited(r, h, lf.value);
    }
  }

  lemma PrefixWaited(r: string, n: nat)
    requires TakenWhole(r) && n < |r|
    ensures Judge(r[..n]) == Wait
  {
    hide Judge;
  }

  lemma LfWaited(r: string, h: nat, g: nat)
    requires g < h && h + 4 <= |r| && HeadersFound(r[..h + 3], g, false) && Judge(r[..h + 3]) == Wait
    ensures ContentLength(r[..g]).Some? && Total(g, false, ContentLength(r[..g]).value) > h + 3
  {
    hide *;
    Shorter(r, h + 3, g);
    JudgedBy(r[..h + 3], g, false, r[..g]);
  }

  lemma EndIsFound(r: string, h: nat)
    requires HeadersEndAt(r, h) && (Contains(r, "HTTP/") ==> BeginsWithMethod(r))
    ensures HeadersFound(r, h, true) && h + 4 <= |r|
  {
    NotEmpty(r, h);
    assert HeaderEnd(r) == Some(h);
    FirstLineAccepted(r);
    hide ValidFirstLine, BeginsWithMethod, Find;
  }

  lemma NotEmpty(r: string, h: nat)
    requires HeadersEndAt(r, h)
    ensures h + 4 <= |r|
  {
    assert OccursAt(r, CRLFCRLF, h);
  }

  // -------------------------------------------------------------------------- the session

  class Session {
    var requestData: string
    var phase: Phase
    var log: seq<Entry>

    ghost function View(): State
      reads this
    {
      State(requestData, phase, log)
    }

    constructor ()
      ensures View() == START
    {
      requestData, phase, log := "", Reading, [];
    }

    /** handle_read */
    method HandleRead(error: bool, newData: string)
      requires phase == Reading
      modifies this
      ensures View() == if error then old(View()).(phase := Closed) else OnEvent(old(View()), Read(newData))
    {
      hide Find, FindChar, ContentLength, IsValidHttpRequest;
      if error {
        phase := Closed;
        return;
      }
      requestData := requestData + newData;
      var headerEnd := Find(requestData, CRLFCRLF, 0);
      if headerEnd.None? {
        headerEnd := Find(requestData, LFLF, 0);
      }
      var headersComplete := headerEnd.Some?;
      if headersComplete && Find(requestData, "HTTP/", 0).Some? {
        var firstLineEnd := FindChar(requestData, '\n', 0);
        var firstLine := if firstLineEnd.Some? then requestData[..firstLineEnd.value] else requestData;
        if !IsValidHttpRequest(firstLine + " HTTP/1.1\r\n\r\n") {
          log := log + [Rejected];
          phase := Writing;
          return;
        }
      }
      var requestComplete := false;
      if headersComplete {
        var headers := requestData[..headerEnd.value];
        var contentLength := ReadContentLength(headers);
        if contentLength.None? {
          phase := Closed;
          return;
        }
        var separatorLength := if Find(requestData, CRLFCRLF, 0).Some? then 4 else 2;
        var total := (headerEnd.value + separatorLength + contentLength.value) % TWO_TO_THE_64;
        if |requestData| >= total {
          requestComplete := true;
          assert requestData[..|requestData|] == requestData;
          if |requestData| > total {
            requestData := requestData[..total];
          }
        }
      } else if Find(requestData, "HTTP/", 0).Some? && Find(requestData, "GET ", 0) == Some(0) {
        requestComplete := headersComplete;
      }
      if requestComplete {
        log := log + [Dispatched(requestData)];
        phase := Writing;
      }
    }

    /** handle_write */
    method HandleWrite(error: bool)
      requires phase == Writing
      modifies this
      ensures View() == if error then old(View()).(phase := Closed) else OnEvent(old(View()), Written)
    {
      if error {
        phase := Closed;
        return;
      }
      requestData := "";
      phase := Reading;
    }
  }

  /** The search for the Content-Length header and the conversion of its value. */
  method ReadContentLength(headers: string) returns (r: Option<nat>)
    ensures r == ContentLength(headers)
  {
    hide Find, FindChar, Stoul, TrimLeft, TrimRight;
    var pos := Find(headers, "Content-Length:", 0);
    if pos.None? {
      pos := Find(headers, "content-length:", 0);
    }
    if pos.Some? {
      var colon := FindChar(headers, ':', pos.value);
      if colon.Some? {
        var end := FindChar(headers, '\n', colon.value + 1);
        if end.Some? {
          return Stoul(TrimRight(TrimLeft(headers[colon.value + 1..end.value])));
        }
      }
    }
    return Some(0);
  }
}
