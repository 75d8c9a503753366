/** What one call of the tokenizer yields, as a function of the unread text, and the
    exact set of tokens that survive being printed and read again. */
module ConfigLexer {
  import opened ConfigTree

  datatype TokenType =
    | TypeStart | TypeNormal | TypeStartBlock | TypeEndBlock
    | TypeComment | TypeStatementEnd | TypeEof | TypeError

  /** The states of the tokenizer; the single- and double-quote states differ only in
      the character that closes them. */
  datatype LexState = InitialWhitespace | Quoted(quote: char) | InComment | InNormal

  /** The kind and text of a token and the input left after it. */
  datatype Scanned = Scanned(kind: TokenType, text: string, rest: string)

  predicate IsSpace(c: char) {
    c == ' ' || c == '\t' || c == '\n' || c == '\r'
  }

  predicate IsQuote(c: char) {
    c == '"' || c == '\''
  }

  /** What ends a bare word; a carriage return does not. */
  predicate EndsWord(c: char) {
    c == ' ' || c == '\t' || c == '\n' || c == ';' || c == '{' || c == '}'
  }

  /** What may begin a bare word. */
  predicate StartsWord(c: char) {
    !EndsWord(c) && !IsSpace(c) && !IsQuote(c) && c != '#'
  }

  /** The character a read past the end of the input yields after a backslash. */
  const EOF_CHAR := 255 as char

  function Prepend(c: char, r: Scanned): Scanned {
    r.(text := [c] + r.text)
  }

  /** The token that begins in `state` at the head of `s`; its text leaves out what was
      collected before. */
  function Scan(state: LexState, s: string): (r: Scanned)
    ensures |r.rest| <= |s|
    ensures state == InitialWhitespace && r.kind != TypeEof ==> |r.rest| < |s|
    ensures state.Quoted? && r.kind != TypeError ==> |r.rest| < |s|
    ensures state == InComment ==> r.kind == TypeComment || r.kind == TypeEof
    ensures state == InNormal ==> r.kind == TypeNormal || r.kind == TypeEof
    ensures state.Quoted? ==> r.kind == TypeNormal || r.kind == TypeError
    ensures r.kind != TypeStart
    decreases |s|
  {
    if s == [] then
      Scanned(if state.Quoted? then TypeError else TypeEof, "", s)
    else
      var c, t := s[0], s[1..];
      match state
      case InitialWhitespace =>
        if c == '{' then Scanned(TypeStartBlock, [c], t)
        else if c == '}' then Scanned(TypeEndBlock, [c], t)
        else if c == ';' then Scanned(TypeStatementEnd, [c], t)
        else if c == '#' then Prepend(c, Scan(InComment, t))
        else if IsQuote(c) then Prepend(c, Scan(Quoted(c), t))
        else if IsSpace(c) then Scan(state, t)
        else Prepend(c, Scan(InNormal, t))
      case Quoted(q) =>
        if c == '\\' then
          if t == [] then Scanned(TypeError, [EOF_CHAR], t)
          else Prepend(t[0], Scan(state, t[1..]))
        else if c == q then
          Scanned(if t != [] && EndsWord(t[0]) then TypeNormal else TypeError, [c], t)
        else
          Prepend(c, Scan(state, t))
      case InComment =>
        if c == '\n' || c == '\r' then Scanned(TypeComment, "", t)
        else Prepend(c, Scan(state, t))
      case InNormal =>
        if EndsWord(c) then Scanned(TypeNormal, "", s)
        else Prepend(c, Scan(state, t))
  }

  function NextToken(s: string): Scanned {
    Scan(InitialWhitespace, s)
  }

  /** The lexemes of a text up to its end or its first error; comments are dropped. */
  function Lex(s: string): (r: seq<Lexeme>)
    ensures r != []
    decreases |s|
  {
    var t := NextToken(s);
    match t.kind
    case TypeStart => [Bad]
    case TypeError => [Bad]
    case TypeEof => [End]
    case TypeComment => Lex(t.rest)
    case TypeStartBlock => [Open] + Lex(t.rest)
    case TypeEndBlock => [Close] + Lex(t.rest)
    case TypeStatementEnd => [Semi] + Lex(t.rest)
    case TypeNormal => [Word(t.text)] + Lex(t.rest)
  }

  predicate IsBareWord(t: string) {
    t != [] && StartsWord(t[0]) && forall i :: 0 <= i < |t| ==> !EndsWord(t[i])
  }

  predicate IsQuotedWord(t: string) {
    && 2 <= |t|
    && IsQuote(t[0]) && t[|t| - 1] == t[0]
    && forall i :: 1 <= i < |t| - 1 ==> t[i] != '\\' && t[i] != t[0]
  }

  /** The tokens that can be printed as they are and read back. */
  predicate IsPrintable(t: string) {
    IsBareWord(t) || IsQuotedWord(t)
  }

  /** The tokenizer consumes a prefix of its input, of the length returned. */
  lemma {:induction false} ScanSuffix(state: LexState, s: string) returns (n: nat)
    ensures n <= |s| && Scan(state, s).rest == s[n..]
    decreases |s|
  {
    if s == [] || (state == InNormal && EndsWord(s[0])) {
      n := 0;
    } else if state == InitialWhitespace {
      var c := s[0];
      if c == '{' || c == '}' || c == ';' {
        n := 1;
      } else {
        var next := if c == '#' then InComment else if IsQuote(c) then Quoted(c) else if IsSpace(c) then state else InNormal;
        n := ScanSuffix(next, s[1..]);
        n := Behind(s, 1, n);
      }
    } else if state.Quoted? {
      n := QuotedSuffix(state.quote, s);
    } else if state == InComment && (s[0] == '\n' || s[0] == '\r') {
      n := 1;
    } else {
      n := ScanSuffix(state, s[1..]);
      n := Behind(s, 1, n);
    }
  }

  lemma {:induction false} QuotedSuffix(q: char, s: string) returns (n: nat)
    ensures n <= |s| && Scan(Quoted(q), s).rest == s[n..]
    decreases |s|
  {
    if s == [] {
      n := 0;
    } else if s[0] == '\\' && 1 < |s| {
      n := QuotedSuffix(q, s[1..][1..]);
      n := Behind(s[1..], 1, n);
      n := Behind(s, 1, n);
    } else if s[0] == '\\' || s[0] == q {
      n := 1;
    } else {
      n := QuotedSuffix(q, s[1..]);
      n := Behind(s, 1, n);
    }
  }

  lemma Behind(s: string, k: nat, n: nat) returns (m: nat)
    requires k + n <= |s|
    ensures m == k + n && s[k..][n..] == s[m..]
  {
    m := k + n;
  }

  // ---------------------------------------------------------------- white space

  lemma {:induction false} ScanSkipsSpace(ws: string, s: string)
    requires forall i :: 0 <= i < |ws| ==> IsSpace(ws[i])
    ensures NextToken(ws + s) == NextToken(s)
  {
    if ws == [] {
      assert ws + s == s;
    } else {
      assert (ws + s)[0] == ws[0] && (ws + s)[1..] == ws[1..] + s;
      ScanSkipsSpace(ws[1..], s);
    }
  }

  lemma LexSkipsSpace(ws: string, s: string)
    requires forall i :: 0 <= i < |ws| ==> IsSpace(ws[i])
    ensures Lex(ws + s) == Lex(s)
  {
    ScanSkipsSpace(ws, s);
  }

  lemma {:induction false} IndentIsSpace(depth: nat)
    ensures forall i :: 0 <= i < |Indent(depth)| ==> IsSpace(Indent(depth)[i])
  {
    if depth != 0 {
      IndentIsSpace(depth - 1);
    }
  }

  // ------------------------------------------------- printable words are read back

  lemma {:induction false} ScanBare(t: string, u: string)
    requires forall i :: 0 <= i < |t| ==> !EndsWord(t[i])
    requires u != [] && EndsWord(u[0])
    ensures Scan(InNormal, t + u) == Scanned(TypeNormal, t, u)
    decreases |t|
  {
    if t == [] {
      assert t + u == u;
    } else {
      assert (t + u)[0] == t[0] && (t + u)[1..] == t[1..] + u;
      ScanBare(t[1..], u);
    }
  }

  lemma {:induction false} ScanQuotedBody(q: char, body: string, u: string)
    requires q != '\\'
    requires forall i :: 0 <= i < |body| ==> body[i] != '\\' && body[i] != q
    requires u != [] && EndsWord(u[0])
    ensures Scan(Quoted(q), body + ([q] + u)) == Scanned(TypeNormal, body + [q], u)
    decreases |body|
  {
    var s := body + ([q] + u);
    if body == [] {
      assert s[0] == q && s[1..] == u;
    } else {
      assert s[0] == body[0] && s[1..] == body[1..] + ([q] + u);
      ScanQuotedBody(q, body[1..], u);
      assert [body[0]] + (body[1..] + [q]) == body + [q];
    }
  }

  lemma ScanPrintable(t: string, u: string)
    requires IsPrintable(t)
    requires u != [] && EndsWord(u[0])
    ensures NextToken(t + u) == Scanned(TypeNormal, t, u)
  {
    var c, tail := t[0], t[1..];
    assert (t + u)[0] == c && (t + u)[1..] == tail + u;
    if IsBareWord(t) {
      ScanBare(tail, u);
    } else {
      var body := t[1..|t| - 1];
      assert tail == body + [c];
      assert tail + u == body + ([c] + u);
      ScanQuotedBody(c, body, u);
    }
  }

  // --------------------------------------- words read back as they are are printable

  predicate AllBackslashes(s: string) {
    forall i :: 0 <= i < |s| ==> s[i] == '\\'
  }

  /** Once the tokenizer has dropped a backslash it never again agrees with the text it
      reads: what it has still to match begins with backslashes it already passed. */
  lemma {:induction false} NeverCatchesUp(q: char, behind: string, s: string)
    requires q != '\\' && behind != [] && AllBackslashes(behind)
    requires Scan(Quoted(q), s).kind == TypeNormal
    ensures !(Scan(Quoted(q), s).text <= behind + s)
    decreases |s|
  {
    var r := Scan(Quoted(q), s);
    if r.text <= behind + s {
      assert r.text[0] == (behind + s)[0] == behind[0];
      assert s[0] == '\\' && s[1] == '\\';
      var ahead := behind[1..] + s[..2];
      assert ahead + s[2..] == (behind + s)[1..];
      assert r.text[1..] <= (behind + s)[1..];
      NeverCatchesUp(q, ahead, s[2..]);
    }
  }

  /** A quoted token whose text is a prefix of what was read has no backslash in it and
      closes at its first quote. */
  lemma {:induction false} QuotedAgreement(q: char, s: string) returns (body: string)
    requires q != '\\'
    requires Scan(Quoted(q), s).kind == TypeNormal
    requires Scan(Quoted(q), s).text <= s
    ensures Scan(Quoted(q), s).text == body + [q]
    ensures forall i :: 0 <= i < |body| ==> body[i] != '\\' && body[i] != q
    decreases |s|
  {
    var r := Scan(Quoted(q), s);
    if s[0] == '\\' {
      assert r.text[0] == s[0];
      assert [s[1]] + s[2..] == s[1..];
      assert r.text[1..] <= s[1..];
      NeverCatchesUp(q, [s[1]], s[2..]);
      assert false;
    } else if s[0] == q {
      body := "";
    } else {
      assert r.text[1..] <= s[1..];
      var tail := QuotedAgreement(q, s[1..]);
      body := [s[0]] + tail;
      assert [s[0]] + (tail + [q]) == body + [q];
    }
  }

  /** A bare word runs up to a character that ends it, and has none inside. */
  lemma {:induction false} BareShape(s: string) returns (t: string)
    ensures t == Scan(InNormal, s).text && forall i :: 0 <= i < |t| ==> !EndsWord(t[i])
    decreases |s|
  {
    if s == [] || EndsWord(s[0]) {
      t := "";
    } else {
      var tail := BareShape(s[1..]);
      t := [s[0]] + tail;
    }
  }

  lemma BareWordShape(c: char, tail: string)
    requires StartsWord(c)
    requires forall i :: 0 <= i < |tail| ==> !EndsWord(tail[i])
    ensures IsBareWord([c] + tail)
  {
    var t := [c] + tail;
    assert forall i :: 0 < i < |t| ==> t[i] == tail[i - 1];
  }

  lemma QuotedWordShape(c: char, body: string)
    requires IsQuote(c) && forall i :: 0 <= i < |body| ==> body[i] != '\\' && body[i] != c
    ensures IsQuotedWord([c] + (body + [c]))
  {
    var t := [c] + (body + [c]);
    assert forall i :: 1 <= i < |t| - 1 ==> t[i] == body[i - 1];
  }

  /** Leading white space aside, a word begins where its text begins. */
  lemma {:induction false} WordHead(s: string)
    requires NextToken(s).kind == TypeNormal
    ensures s != [] && (StartsWord(s[0]) || IsQuote(s[0]) || IsSpace(s[0]))
    ensures var t := NextToken(s).text; t != [] && (StartsWord(t[0]) || IsQuote(t[0]))
    decreases |s|
  {
    if IsSpace(s[0]) {
      WordHead(s[1..]);
    }
  }

  /** A word that is read back as itself is printable. */
  lemma ScannedBackIsPrintable(t: string, u: string)
    requires NextToken(t + u).kind == TypeNormal && NextToken(t + u).text == t
    ensures IsPrintable(t)
  {
    var s := t + u;
    WordHead(s);
    var c, tail := t[0], t[1..];
    assert s[0] == c && s[1..] == tail + u;
    assert t == [c] + tail;
    if IsQuote(c) {
      assert Scan(Quoted(c), s[1..]).text == tail;
      var body := QuotedAgreement(c, s[1..]);
      assert tail == body + [c];
      QuotedWordShape(c, body);
    } else {
      var tail' := BareShape(s[1..]);
      assert tail' == tail;
      BareWordShape(c, tail);
    }
  }

  // ----------------------------------------------------------- backslash-free input

  predicate NoBackslash(s: string) {
    forall i :: 0 <= i < |s| ==> s[i] != '\\'
  }

  lemma {:induction false} QuotedShape(q: char, s: string) returns (body: string)
    requires q != '\\' && NoBackslash(s) && Scan(Quoted(q), s).kind == TypeNormal
    ensures Scan(Quoted(q), s).text == body + [q]
    ensures forall i :: 0 <= i < |body| ==> body[i] != '\\' && body[i] != q
    decreases |s|
  {
    if s[0] == q {
      body := "";
    } else {
      var tail := QuotedShape(q, s[1..]);
      body := [s[0]] + tail;
      assert [s[0]] + (tail + [q]) == body + [q];
    }
  }

  /** Without backslashes in the input every word is printable. */
  lemma {:induction false} WordsPrintable(s: string)
    requires NoBackslash(s) && NextToken(s).kind == TypeNormal
    ensures IsPrintable(NextToken(s).text)
    decreases |s|
  {
    WordHead(s);
    var c := s[0];
    if IsSpace(c) {
      WordsPrintable(s[1..]);
    } else if IsQuote(c) {
      var body := QuotedShape(c, s[1..]);
      QuotedWordShape(c, body);
    } else {
      assert StartsWord(c);
      var tail := BareShape(s[1..]);
      BareWordShape(c, tail);
    }
  }

  lemma {:induction false} LexPrintable(s: string) returns (ls: seq<Lexeme>)
    requires NoBackslash(s)
    ensures ls == Lex(s)
    ensures forall i :: 0 <= i < |ls| && ls[i].Word? ==> IsPrintable(ls[i].text)
    decreases |s|
  {
    ls := Lex(s);
    var t := NextToken(s);
    if t.kind != TypeError && t.kind != TypeEof {
      var n := ScanSuffix(InitialWhitespace, s);
      var rest := LexPrintable(t.rest);
      if t.kind == TypeNormal {
        WordsPrintable(s);
      }
    }
  }

  // ------------------------------------------------------------------- an unfinished end

  predicate NoEnd(w: string) {
    forall i :: 0 <= i < |w| ==> !EndsWord(w[i])
  }

  predicate NoQuote(w: string) {
    forall i :: 0 <= i < |w| ==> !IsQuote(w[i])
  }

  predicate NoReturn(w: string) {
    forall i :: 0 <= i < |w| ==> w[i] != '\r'
  }

  /** Text without what ends a bare word: free of quotes, or a bare word that may hold some. */
  predicate IsUnfinished(w: string) {
    NoEnd(w) && (NoQuote(w) || (NoReturn(w) && (w != [] ==> StartsWord(w[0]))))
  }

  lemma {:induction false} ScanUnfinished(state: LexState, w: string)
    requires NoEnd(w) && (NoQuote(w) || NoReturn(w)) && (state.Quoted? ==> IsQuote(state.quote))
    requires state == InitialWhitespace ==> IsUnfinished(w)
    ensures var r := Scan(state, w);
            if state.Quoted? then r.kind == TypeError
            else r.kind == TypeEof || (r.kind == TypeComment && IsUnfinished(r.rest))
    decreases |w|
  {
    if w != [] {
      var c, t := w[0], w[1..];
      match state
      case InitialWhitespace =>
        if c != '#' && !IsSpace(c) {
          ScanUnfinished(InNormal, t);
        } else {
          ScanUnfinished(if c == '#' then InComment else state, t);
        }
      case Quoted(q) =>
        if c == '\\' && t != [] {
          ScanUnfinished(state, t[1..]);
        } else if c != '\\' && c != q {
          ScanUnfinished(state, t);
        }
      case InComment =>
        if c != '\n' && c != '\r' {
          ScanUnfinished(state, t);
        }
      case InNormal => ScanUnfinished(state, t);
    }
  }

  /** A backslash at the end of a text escapes what follows. */
  lemma EscapeUnfinished(q: char, w: string)
    requires IsUnfinished(w) && IsQuote(q)
    ensures Scan(Quoted(q), "\\" + w).kind == TypeError
  {
    var s := "\\" + w;
    assert s[0] == '\\' && s[1..] == w;
    if w != [] {
      ScanUnfinished(Quoted(q), w[1..]);
    }
  }

  lemma {:induction false} ScanAheadWord(s: string, w: string)
    ensures var r, r' := Scan(InNormal, s), Scan(InNormal, s + w);
            if r.kind == TypeEof then IsUnfinished(w) ==> r'.kind == TypeEof else r' == r.(rest := r.rest + w)
    decreases |s|
  {
    if s == [] {
      assert s + w == w;
      if IsUnfinished(w) {
        ScanUnfinished(InNormal, w);
      }
    } else {
      assert (s + w)[0] == s[0] && (s + w)[1..] == s[1..] + w;
      if !EndsWord(s[0]) {
        ScanAheadWord(s[1..], w);
      }
    }
  }

  lemma {:induction false} ScanAheadComment(s: string, w: string)
    ensures var r, r' := Scan(InComment, s), Scan(InComment, s + w);
            if r.kind == TypeEof then
              IsUnfinished(w) ==> r'.kind == TypeEof || (r'.kind == TypeComment && IsUnfinished(r'.rest))
            else r' == r.(rest := r.rest + w)
    decreases |s|
  {
    if s == [] {
      assert s + w == w;
      if IsUnfinished(w) {
        ScanUnfinished(InComment, w);
      }
    } else {
      assert (s + w)[0] == s[0] && (s + w)[1..] == s[1..] + w;
      hide IsUnfinished;
      if s[0] != '\n' && s[0] != '\r' {
        ScanAheadComment(s[1..], w);
      }
    }
  }

  lemma {:induction false} ScanAheadQuoted(q: char, s: string, w: string)
    requires IsQuote(q)
    ensures var r, r' := Scan(Quoted(q), s), Scan(Quoted(q), s + w);
            if r.kind == TypeError then IsUnfinished(w) ==> r'.kind == TypeError else r' == r.(rest := r.rest + w)
    decreases |s|
  {
    if s == [] {
      assert s + w == w;
      if IsUnfinished(w) {
        ScanUnfinished(Quoted(q), w);
      }
    } else {
      var c, t := s[0], s[1..];
      assert (s + w)[0] == c && (s + w)[1..] == t + w;
      if c == '\\' {
        ScanAheadEscape(q, t, w);
      } else if c == q {
        QuoteClosed(t, w);
      } else {
        hide IsUnfinished;
        ScanAheadQuoted(q, t, w);
      }
    }
  }

  /** What follows a closing quote decides in the text, if something does. */
  lemma QuoteClosed(t: string, w: string)
    ensures t != [] ==> (t + w) != [] && (t + w)[0] == t[0]
    ensures t == [] && IsUnfinished(w) && t + w != [] ==> !EndsWord((t + w)[0])
  {
  }

  /** A backslash and what it escapes. */
  lemma {:induction false} ScanAheadEscape(q: char, t: string, w: string)
    requires IsQuote(q)
    ensures var r, r' := Scan(Quoted(q), "\\" + t), Scan(Quoted(q), "\\" + (t + w));
            if r.kind == TypeError then IsUnfinished(w) ==> r'.kind == TypeError else r' == r.(rest := r.rest + w)
    decreases |t|
  {
    var s, s' := "\\" + t, "\\" + (t + w);
    assert s[0] == s'[0] == '\\' && s[1..] == t && s'[1..] == t + w;
    if t == [] {
      assert t + w == w;
      if IsUnfinished(w) {
        EscapeUnfinished(q, w);
      }
    } else {
      assert (t + w)[0] == t[0] && (t + w)[1..] == t[1..] + w;
      hide IsUnfinished;
      ScanAheadQuoted(q, t[1..], w);
    }
  }

  /** A token that ends in the text is not changed by what follows; a token that does not end
      there does not end in unfinished text either, unless it is a comment. */
  lemma {:induction false} TokenAhead(s: string, w: string)
    ensures var r, r' := NextToken(s), NextToken(s + w);
            match r.kind
            case TypeError => IsUnfinished(w) ==> r'.kind == TypeError
            case TypeEof => IsUnfinished(w) ==> r'.kind == TypeEof || (r'.kind == TypeComment && IsUnfinished(r'.rest))
            case _ => r' == r.(rest := r.rest + w)
    decreases |s|
  {
    if s == [] {
      assert s + w == w;
      if IsUnfinished(w) {
        ScanUnfinished(InitialWhitespace, w);
      }
    } else {
      var c, t := s[0], s[1..];
      assert (s + w)[0] == c && (s + w)[1..] == t + w;
      hide IsUnfinished;
      if c == '#' {
        ScanAheadComment(t, w);
      } else if IsQuote(c) {
        ScanAheadQuoted(c, t, w);
      } else if IsSpace(c) {
        TokenAhead(t, w);
      } else if StartsWord(c) {
        ScanAheadWord(t, w);
      }
    }
  }

  /** What stands behind the last delimiter is dropped, whatever the text in front of it. */
  lemma {:induction false} UnfinishedIsDropped(s: string, w: string)
    requires IsUnfinished(w)
    ensures Lex(s + w) == Lex(s)
    decreases |s| + |w|
  {
    TokenAhead(s, w);
    var r, r' := NextToken(s), NextToken(s + w);
    if r.kind == TypeEof {
      if r'.kind == TypeComment {
        assert [] + r'.rest == r'.rest;
        UnfinishedIsDropped([], r'.rest);
      }
    } else if r.kind != TypeError {
      UnfinishedIsDropped(r.rest, w);
    }
  }

  // ---------------------------------------------------------------------- texts put together

  /** Nothing but white space stands behind the last token. */
  predicate EndsClean(s: string)
    decreases |s|
  {
    var t := NextToken(s);
    if t.kind == TypeEof then forall i :: 0 <= i < |s| ==> IsSpace(s[i])
    else t.kind != TypeError && EndsClean(t.rest)
  }

  /** From a boundary on, the tokenizer reads as from the beginning. */
  lemma {:induction false} LexJoins(s: string, w: string)
    requires EndsClean(s)
    ensures Lex(s) != [] && Lex(s)[|Lex(s)| - 1] == End
    ensures Lex(s + w) == Lex(s)[..|Lex(s)| - 1] + Lex(w)
    decreases |s|
  {
    var r := NextToken(s);
    if r.kind == TypeEof {
      LexSkipsSpace(s, w);
    } else {
      LexFirst(s, w);
      LexJoins(r.rest, w);
      hide *;
      ButTheLast(LexemesOf(r), Lex(r.rest), Lex(w));
    }
  }

  lemma ButTheLast(a: seq<Lexeme>, b: seq<Lexeme>, c: seq<Lexeme>)
    requires b != []
    ensures (a + b)[|a + b| - 1] == b[|b| - 1]
    ensures a + (b[..|b| - 1] + c) == (a + b)[..|a + b| - 1] + c
  {
  }

  /** The first token, in front of the others, whatever follows. */
  lemma LexFirst(s: string, w: string)
    requires NextToken(s).kind != TypeEof && NextToken(s).kind != TypeError
    ensures Lex(s) == LexemesOf(NextToken(s)) + Lex(NextToken(s).rest)
    ensures Lex(s + w) == LexemesOf(NextToken(s)) + Lex(NextToken(s).rest + w)
  {
    TokenAhead(s, w);
    hide IsUnfinished, Scan;
  }

  function LexemesOf(t: Scanned): seq<Lexeme> {
    match t.kind
    case TypeStartBlock => [Open]
    case TypeEndBlock => [Close]
    case TypeStatementEnd => [Semi]
    case TypeNormal => [Word(t.text)]
    case _ => []
  }

  /** A bare word that nothing ends. */
  lemma BareWordEnds(w: string)
    requires IsBareWord(w)
    ensures Lex(w) == [End]
  {
    BareToEnd(w[1..]);
  }

  lemma {:induction false} BareToEnd(t: string)
    requires NoEnd(t)
    ensures Scan(InNormal, t).kind == TypeEof
  {
    if t != [] {
      BareToEnd(t[1..]);
    }
  }
}
