/** Configuration texts as they are written: every text that the tokenizer reads without an error is
    spelled in pieces, and this is what it makes of them. */
module ConfigTexts {
  import opened Wrappers
  import opened Sequences
  import opened ConfigTree
  import opened ConfigLexer
  import opened ConfigGrammar
  import opened ConfigRoundTrip

  // ------------------------------------------------------------------------------- the pieces

  /** A character between quotes: as it stands, or behind a backslash. */
  datatype Written = Plain(c: char) | Escaped(c: char)

  datatype Piece =
    | Blank(c: char)
    | Comment(text: string, end: char)
    | Mark(c: char)
    | Bare(word: string)
    | InQuotes(quote: char, body: seq<Written>)

  function Letters(w: Written): string {
    match w
    case Plain(c) => [c]
    case Escaped(c) => ['\\', c]
  }

  function SpellBody(body: seq<Written>): string {
    if body == [] then ""
    else Letters(body[0]) + SpellBody(body[1..])
  }

  function Spell(p: Piece): string {
    match p
    case Blank(c) => [c]
    case Comment(text, end) => ['#'] + (text + [end])
    case Mark(c) => [c]
    case Bare(word) => word
    case InQuotes(q, body) => [q] + (SpellBody(body) + [q])
  }

  function SpellAll(ps: seq<Piece>): string {
    if ps == [] then "" else Spell(ps[0]) + SpellAll(ps[1..])
  }

  predicate OnOneLine(s: string) {
    forall i :: 0 <= i < |s| ==> s[i] != '\n' && s[i] != '\r'
  }

  predicate IsBare(w: string) {
    && w != "" && w[0] != '\r' && w[0] != '"' && w[0] != '\'' && w[0] != '#'
    && forall i :: 0 <= i < |w| ==>
         w[i] != ' ' && w[i] != '\t' && w[i] != '\n' && w[i] != ';' && w[i] != '{' && w[i] != '}'
  }

  predicate LegalPiece(p: Piece) {
    match p
    case Blank(c) => c == ' ' || c == '\t' || c == '\n' || c == '\r'
    case Comment(text, end) => OnOneLine(text) && (end == '\n' || end == '\r')
    case Mark(c) => c == ';' || c == '{' || c == '}'
    case Bare(word) => IsBare(word)
    case InQuotes(q, body) =>
      && (q == '"' || q == '\'')
      && forall i :: 0 <= i < |body| && body[i].Plain? ==> body[i].c != q && body[i].c != '\\'
  }

  /** What may stand behind a word: a mark, or white space other than a carriage return. */
  predicate EndsAWord(p: Piece) {
    p.Mark? || (p.Blank? && p.c != '\r')
  }

  predicate Legal(ps: seq<Piece>) {
    ps == [] ||
    (LegalPiece(ps[0]) && (ps[0].Bare? || ps[0].InQuotes? ==> |ps| > 1 && EndsAWord(ps[1])) && Legal(ps[1..]))
  }

  /** What may be left unfinished at the end: a comment or a bare word. */
  predicate LegalTail(t: string) {
    t == "" || (t[0] == '#' && OnOneLine(t[1..])) || IsBare(t)
  }

  function Characters(body: seq<Written>): string {
    if body == [] then "" else [body[0].c] + Characters(body[1..])
  }

  /** What a piece stands for: words keep their quotes and lose their backslashes. */
  function Meant(p: Piece): seq<Lexeme> {
    match p
    case Blank(_) => []
    case Comment(_, _) => []
    case Mark(c) => [if c == ';' then Semi else if c == '{' then Open else Close]
    case Bare(word) => [Word(word)]
    case InQuotes(q, body) => [Word([q] + (Characters(body) + [q]))]
  }

  function MeantByAll(ps: seq<Piece>): seq<Lexeme> {
    if ps == [] then [] else Meant(ps[0]) + MeantByAll(ps[1..])
  }

  // ------------------------------------------------------------------------ reading the pieces

  lemma {:induction false} ScanComment(body: string, end: char, u: string)
    requires OnOneLine(body) && (end == '\n' || end == '\r')
    ensures Scan(InComment, body + [end] + u).kind == TypeComment && Scan(InComment, body + [end] + u).rest == u
    decreases |body|
  {
    var s := body + [end] + u;
    if body == "" {
      assert s[0] == end && s[1..] == u;
    } else {
      assert s[0] == body[0] && s[1..] == body[1..] + [end] + u;
      ScanComment(body[1..], end, u);
    }
  }

  lemma ScanWritten(q: char, w: Written, more: string)
    requires w.Plain? ==> w.c != q && w.c != '\\'
    ensures Scan(Quoted(q), Letters(w) + more) == Prepend(w.c, Scan(Quoted(q), more))
  {
    var s := Letters(w) + more;
    if w.Plain? {
      assert s[0] == w.c && s[1..] == more;
    } else {
      assert s[0] == '\\' && s[1..][0] == w.c && s[1..][1..] == more;
    }
  }

  lemma {:induction false} ScanBody(q: char, body: seq<Written>, u: string)
    requires LegalPiece(InQuotes(q, body))
    ensures Scan(Quoted(q), SpellBody(body) + ([q] + u)) ==
            Scanned(if u != "" && EndsWord(u[0]) then TypeNormal else TypeError, Characters(body) + [q], u)
    decreases |body|
  {
    if body == [] {
      var s := "" + ([q] + u);
      assert s[0] == q && s[1..] == u;
      assert "" + [q] == [q];
    } else {
      var w, rest := body[0], body[1..];
      assert LegalPiece(InQuotes(q, rest));
      ScanBody(q, rest, u);
      ScanWritten(q, w, SpellBody(rest) + ([q] + u));
      hide Scan, EndsWord;
      Regroup(Letters(w), SpellBody(rest), [q] + u, "");
      Regroup([w.c], Characters(rest), [q], "");
    }
  }

  /** One piece, in front of what may follow it. */
  lemma LexPiece(p: Piece, u: string)
    requires LegalPiece(p) && (p.Bare? || p.InQuotes? ==> u != "" && EndsWord(u[0]))
    ensures Lex(Spell(p) + u) == Meant(p) + Lex(u)
  {
    hide Lex, EndsWord;
    match p
    case Blank(c) => LexSkipsSpace([c], u);
    case Comment(text, end) => LexComment(text, end, u);
    case Mark(c) => LexMarkPiece(c, u);
    case Bare(word) =>
      assert IsBareWord(word) by {
        BareIsBare(word);
      }
      LexWord(word, u);
    case InQuotes(q, body) => LexQuotes(q, body, u);
  }

  lemma BareIsBare(w: string)
    requires IsBare(w)
    ensures IsBareWord(w)
  {
  }

  lemma LexMarkPiece(c: char, u: string)
    requires LegalPiece(Mark(c))
    ensures Lex([c] + u) == Meant(Mark(c)) + Lex(u)
  {
    var s := [c] + u;
    assert s[0] == c && s[1..] == u;
  }

  lemma LexQuotes(q: char, body: seq<Written>, u: string)
    requires LegalPiece(InQuotes(q, body)) && u != "" && EndsWord(u[0])
    ensures Lex(Spell(InQuotes(q, body)) + u) == [Word([q] + (Characters(body) + [q]))] + Lex(u)
  {
    ScanBody(q, body, u);
    hide EndsWord, SpellBody, Characters;
    var s := Spell(InQuotes(q, body)) + u;
    QuoteFirst(q, SpellBody(body), u);
    assert NextToken(s) == Prepend(q, Scan(Quoted(q), s[1..]));
    hide Scan;
  }

  lemma QuoteFirst(q: char, text: string, u: string)
    ensures ([q] + (text + [q]) + u)[0] == q && ([q] + (text + [q]) + u)[1..] == text + ([q] + u)
  {
  }

  /** A comment ends with its line, whichever character ends that. */
  lemma LexComment(body: string, end: char, u: string)
    requires OnOneLine(body) && (end == '\n' || end == '\r')
    ensures Lex(['#'] + (body + [end]) + u) == Lex(u)
  {
    var s := ['#'] + (body + [end]) + u;
    assert s[0] == '#' && s[1..] == body + [end] + u;
    ScanComment(body, end, u);
  }

  lemma LexTail(t: string)
    requires LegalTail(t)
    ensures Lex(t) == [End]
  {
    if t != "" && t[0] == '#' {
      CommentToEnd(t[1..]);
    } else if t != "" {
      BareWordEnds(t);
    }
  }

  lemma {:induction false} CommentToEnd(t: string)
    requires OnOneLine(t)
    ensures Scan(InComment, t).kind == TypeEof
  {
    if t != "" {
      CommentToEnd(t[1..]);
    }
  }

  lemma WordGoesOn(ps: seq<Piece>, tail: string)
    requires ps != [] && LegalPiece(ps[0]) && EndsAWord(ps[0])
    ensures SpellAll(ps) + tail != "" && EndsWord((SpellAll(ps) + tail)[0])
  {
  }

  /** What the tokenizer makes of any text of such pieces. */
  lemma {:induction false} TextLexemes(ps: seq<Piece>, tail: string)
    requires Legal(ps) && LegalTail(tail)
    ensures Lex(SpellAll(ps) + tail) == MeantByAll(ps) + [End]
    decreases |ps|
  {
    if ps == [] {
      assert "" + tail == tail;
      LexTail(tail);
      assert [] + [End] == [End];
    } else {
      var p, u := ps[0], SpellAll(ps[1..]) + tail;
      Regroup(Spell(p), SpellAll(ps[1..]), tail, "");
      if p.Bare? || p.InQuotes? {
        WordGoesOn(ps[1..], tail);
      }
      hide Lex, Spell, LegalPiece, LegalTail, EndsAWord, EndsWord, Meant;
      LexPiece(p, u);
      TextLexemes(ps[1..], tail);
      Regroup(Meant(p), MeantByAll(ps[1..]), [End], []);
    }
  }

  // --------------------------------------------------------------------- finding the pieces

  /** A comment up to the character that ends its line. */
  lemma {:induction false} CommentShape(t: string) returns (text: string)
    ensures var r := Scan(InComment, t);
            && OnOneLine(text)
            && if r.kind == TypeEof then t == text
               else |text| < |t| && (t[|text|] == '\n' || t[|text|] == '\r') && t == text + [t[|text|]] + r.rest
    decreases |t|
  {
    if t == "" || t[0] == '\n' || t[0] == '\r' {
      text := "";
    } else {
      var more := CommentShape(t[1..]);
      text := [t[0]] + more;
      assert t == [t[0]] + t[1..];
      if |more| < |t[1..]| {
        assert t[|text|] == t[1..][|more|];
      }
    }
  }

  /** A quoted token, character by character. */
  lemma {:induction false} BodyShape(q: char, t: string) returns (body: seq<Written>)
    requires (q == '"' || q == '\'') && Scan(Quoted(q), t).kind == TypeNormal
    ensures var r := Scan(Quoted(q), t);
            && LegalPiece(InQuotes(q, body)) && t == SpellBody(body) + ([q] + r.rest)
            && r.rest != "" && EndsWord(r.rest[0])
    decreases |t|
  {
    var r := Scan(Quoted(q), t).rest;
    if t[0] == '\\' {
      assert t[1..][1..] == t[2..];
      var more := BodyShape(q, t[2..]);
      hide EndsWord, Scan;
      body := OneMore(q, Escaped(t[1]), more, t, t[2..], r);
    } else if t[0] == q {
      body := [];
      assert t == [q] + t[1..];
      assert "" + ([q] + r) == [q] + r;
    } else {
      var more := BodyShape(q, t[1..]);
      hide EndsWord, Scan;
      body := OneMore(q, Plain(t[0]), more, t, t[1..], r);
    }
  }

  lemma OneMore(q: char, w: Written, more: seq<Written>, t: string, u: string, r: string) returns (body: seq<Written>)
    requires LegalPiece(InQuotes(q, more)) && u == SpellBody(more) + ([q] + r) && |u| < |t|
    requires match w
             case Plain(c) => t[0] == c && c != q && c != '\\' && u == t[1..]
             case Escaped(c) => 2 <= |t| && t[0] == '\\' && t[1] == c && u == t[2..]
    ensures LegalPiece(InQuotes(q, body)) && t == SpellBody(body) + ([q] + r)
  {
    body := [w] + more;
    assert body[1..] == more;
    match w
    case Plain(c) => assert t == [c] + u;
    case Escaped(c) => assert t == ['\\', c] + u;
  }

  /** A bare word up to what ends it, if anything does. */
  lemma {:induction false} WordEnd(t: string) returns (w: string, u: string)
    ensures t == w + u && forall i :: 0 <= i < |w| ==> !EndsWord(w[i])
    ensures u == "" ==> Scan(InNormal, t).kind == TypeEof
    ensures u != "" ==> EndsWord(u[0]) && Scan(InNormal, t).kind == TypeNormal && Scan(InNormal, t).rest == u
    decreases |t|
  {
    if t == "" || EndsWord(t[0]) {
      w, u := "", t;
    } else {
      w, u := WordEnd(t[1..]);
      hide EndsWord;
      w := [t[0]] + w;
    }
  }

  /** Pieces of a text that begins with what ends a word. */
  lemma FirstEnds(s: string, ps: seq<Piece>, tail: string)
    requires s == SpellAll(ps) + tail && Legal(ps) && LegalTail(tail)
    requires s != "" && EndsWord(s[0])
    ensures ps != [] && EndsAWord(ps[0])
  {
    assert ps == [] ==> s == tail;
    if ps != [] {
      assert Spell(ps[0]) != "" && s[0] == Spell(ps[0])[0];
    }
  }

  lemma OnePieceMore(p: Piece, ps: seq<Piece>, u: string, tail: string) returns (all: seq<Piece>)
    requires LegalPiece(p) && Legal(ps) && u == SpellAll(ps) + tail && LegalTail(tail)
    requires p.Bare? || p.InQuotes? ==> u != "" && EndsWord(u[0])
    ensures Legal(all) && Spell(p) + u == SpellAll(all) + tail
  {
    all := [p] + ps;
    assert all[1..] == ps;
    if p.Bare? || p.InQuotes? {
      FirstEnds(u, ps, tail);
    }
    hide LegalPiece, Spell, EndsWord, LegalTail;
    Regroup(Spell(p), SpellAll(ps), tail, "");
  }

  predicate NoError(ls: seq<Lexeme>)
    requires ls != []
  {
    ls[|ls| - 1] != Bad
  }

  /** The first piece of a text, and what is behind it; or the text is one unfinished piece. */
  lemma FirstPiece(s: string) returns (p: Option<Piece>, u: string)
    requires s != "" && NoError(Lex(s))
    ensures p.None? ==> LegalTail(s)
    ensures p.Some? ==>
              && LegalPiece(p.value) && s == Spell(p.value) + u && |u| < |s| && NoError(Lex(u))
              && (p.value.Bare? || p.value.InQuotes? ==> u != "" && EndsWord(u[0]))
  {
    var c, t := s[0], s[1..];
    assert s == [c] + t;
    if IsSpace(c) {
      p, u := Some(Blank(c)), t;
      LexSkipsSpace([c], t);
    } else if c == ';' || c == '{' || c == '}' {
      p, u := Some(Mark(c)), t;
    } else if c == '#' {
      p, u := FirstComment(s, t);
    } else if IsQuote(c) {
      p, u := FirstQuotes(s, c, t);
    } else {
      p, u := FirstBare(s, c, t);
    }
  }

  lemma FirstComment(s: string, t: string) returns (p: Option<Piece>, u: string)
    requires s == ['#'] + t && NoError(Lex(s))
    ensures p.None? ==> LegalTail(s)
    ensures p.Some? ==> p.value.Comment? && LegalPiece(p.value) && s == Spell(p.value) + u && |u| < |s| && NoError(Lex(u))
  {
    assert s[0] == '#' && s[1..] == t;
    var text := CommentShape(t);
    u := Scan(InComment, t).rest;
    if |text| < |t| {
      p := Some(Comment(text, t[|text|]));
      assert s == ['#'] + (text + [t[|text|]]) + u;
    } else {
      p := None;
    }
  }

  lemma FirstQuotes(s: string, q: char, t: string) returns (p: Option<Piece>, u: string)
    requires s == [q] + t && (q == '"' || q == '\'') && NoError(Lex(s))
    ensures p.Some? && p.value.InQuotes? && LegalPiece(p.value) && s == Spell(p.value) + u && |u| < |s| && NoError(Lex(u))
    ensures u != "" && EndsWord(u[0])
  {
    assert s[0] == q && s[1..] == t;
    var body := BodyShape(q, t);
    u := Scan(Quoted(q), t).rest;
    p := Some(InQuotes(q, body));
    hide EndsWord, SpellBody, LegalPiece;
    assert s == [q] + (SpellBody(body) + [q]) + u;
  }

  lemma FirstBare(s: string, c: char, t: string) returns (p: Option<Piece>, u: string)
    requires s == [c] + t && StartsWord(c) && NoError(Lex(s))
    ensures p.None? ==> LegalTail(s)
    ensures p.Some? ==> p.value.Bare? && LegalPiece(p.value) && s == Spell(p.value) + u && |u| < |s| && NoError(Lex(u))
    ensures p.Some? ==> u != "" && EndsWord(u[0])
  {
    assert s[0] == c && s[1..] == t;
    var w;
    w, u := WordEnd(t);
    var word := [c] + w;
    assert IsBare(word) by {
      BareWordShape(c, w);
    }
    p := if u == "" then None else Some(Bare(word));
    hide EndsWord;
    assert s == word + u;
    assert u == "" ==> s == word;
  }

  /** Every text without an error is spelled so. */
  lemma {:induction false} TextPieces(s: string) returns (ps: seq<Piece>, tail: string)
    requires NoError(Lex(s))
    ensures Legal(ps) && LegalTail(tail) && s == SpellAll(ps) + tail
    decreases |s|
  {
    ps, tail := [], s;
    assert "" + s == s;
    if s != "" {
      var p, u := FirstPiece(s);
      if p.Some? {
        hide Lex, Spell, LegalPiece, EndsWord, LegalTail, Legal;
        ps, tail := TextPieces(u);
        ps := OnePieceMore(p.value, ps, u, tail);
      }
    }
  }

  // ------------------------------------------------------------------------- what is accepted

  /** A comment changes neither whether a text is accepted nor the tree, at its beginning or behind a
      boundary. */
  lemma CommentDropped(s: string, text: string, end: char, t: string, c: Config)
    requires EndsClean(s) && OnOneLine(text) && (end == '\n' || end == '\r')
    ensures Lex(s + "#" + text + [end] + t) == Lex(s + t)
    ensures ParseInto(c, s + "#" + text + [end] + t) == ParseInto(c, s + t)
    ensures Lex("#" + text + [end] + t) == Lex(t)
  {
    var comment := ['#'] + (text + [end]);
    CommentText(s, text, end, t);
    LexComment(text, end, t);
    hide Lex;
    LexJoins(s, comment + t);
    LexJoins(s, t);
  }

  lemma CommentText(s: string, text: string, end: char, t: string)
    ensures s + "#" + text + [end] + t == s + (['#'] + (text + [end]) + t)
    ensures "#" + text + [end] + t == ['#'] + (text + [end]) + t
  {
  }

  function WordsOf(ls: seq<Lexeme>): seq<string> {
    if ls == [] then [] else (if ls[0].Word? then [ls[0].text] else []) + WordsOf(ls[1..])
  }

  /** The word after "listen" is a number, wherever it stands. */
  ghost predicate NumbersFollowListen(ws: seq<string>) {
    forall i, j, k :: 0 <= i < j < |ws| && j == i + 1 && ws[i] == "listen" && 0 <= k < |ws[j]| ==> '0' <= ws[j][k] <= '9'
  }

  lemma NumbersFollowFirst(w: string, ws: seq<string>, all: seq<string>)
    requires all == [w] + ws
    ensures NumbersFollowListen(all) <==>
            (w == "listen" && ws != [] ==> IsDigits(ws[0])) && NumbersFollowListen(ws)
  {
    if NumbersFollowListen(all) {
      assert w == "listen" && ws != [] ==> all[0] == w && all[1] == ws[0];
      forall i, j, k | 0 <= i < j < |ws| && j == i + 1 && ws[i] == "listen" && 0 <= k < |ws[j]|
        ensures '0' <= ws[j][k] <= '9'
      {
        assert all[i + 1] == ws[i] && all[j + 1] == ws[j];
      }
    }
    if (w == "listen" && ws != [] ==> IsDigits(ws[0])) && NumbersFollowListen(ws) {
      forall i, j, k | 0 <= i < j < |all| && j == i + 1 && all[i] == "listen" && 0 <= k < |all[j]|
        ensures '0' <= all[j][k] <= '9'
      {
        assert all[j] == ws[j - 1] && (i > 0 ==> all[i] == ws[i - 1]);
      }
    }
  }

  lemma {:induction false} ListenMeans(ls: seq<Lexeme>)
    ensures ListenRule(false, ls) <==> NumbersFollowListen(WordsOf(ls))
    ensures ListenRule(true, ls) <==>
            (WordsOf(ls) != [] ==> IsDigits(WordsOf(ls)[0])) && NumbersFollowListen(WordsOf(ls))
    decreases |ls|
  {
    if ls != [] {
      var rest := ls[1..];
      ListenMeans(rest);
      if ls[0].Word? {
        var w := ls[0].text;
        assert WordsOf(ls) == [w] + WordsOf(rest);
        NumbersFollowFirst(w, WordsOf(rest), WordsOf(ls));
        NotANumber(w);
      } else {
        assert WordsOf(ls) == WordsOf(rest);
      }
    }
  }

  lemma NotANumber(w: string)
    ensures w == "listen" ==> !IsDigits(w)
  {
    assert w == "listen" ==> w[0] == 'l';
  }

  /** Exactly which texts parse to a tree: those whose pieces mean its lexemes, when no statement is
      empty and only numbers follow "listen". */
  lemma TextParses(ps: seq<Piece>, tail: string, c: Config)
    requires Legal(ps) && LegalTail(tail)
    ensures Parse(SpellAll(ps) + tail) == Some(c) <==>
            MeantByAll(ps) == Lexemes(c) && NonEmpty(c) && NumbersFollowListen(WordsOf(MeantByAll(ps)))
  {
    TextLexemes(ps, tail);
    ParseAccepts(SpellAll(ps) + tail, c);
    ListenMeans(Lexemes(c));
    hide Lex, Parse, SpellAll, NonEmpty, ListenRule, NumbersFollowListen, WordsOf, MeantByAll, Lexemes, Legal, LegalTail;
    SameFront(MeantByAll(ps), Lexemes(c));
  }

  lemma SameFront(a: seq<Lexeme>, b: seq<Lexeme>)
    ensures a + [End] == b + [End] <==> a == b
  {
    if a + [End] == b + [End] {
      assert (a + [End])[..|a|] == a && (b + [End])[..|b|] == b;
    }
  }

  /** And every text that parses is one of them. */
  lemma ParsedIsSpelled(s: string) returns (ps: seq<Piece>, tail: string)
    requires Parse(s).Some?
    ensures Legal(ps) && LegalTail(tail) && s == SpellAll(ps) + tail
  {
    ParseAccepts(s, Parse(s).value);
    hide Lex, Parse, Lexemes, NonEmpty, ListenRule;
    ps, tail := TextPieces(s);
  }
}
