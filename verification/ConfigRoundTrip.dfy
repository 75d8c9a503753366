/** Printing and parsing configurations undo each other, and exactly when. */
module ConfigRoundTrip {
  import opened Wrappers
  import opened Sequences
  import opened ConfigTree
  import opened ConfigLexer
  import opened ConfigGrammar

  /** The trees that survive printing and parsing: every statement has a token, every
      token is a bare word or a quoted string free of backslashes and of its own quote,
      and the word after "listen" is made of digits. */
  predicate WellFormed(c: Config) {
    NonEmpty(c) && AllTokens(c, IsPrintable) && ListenRule(false, Lexemes(c))
  }

  // ----------------------------------------------------------- what Parse accepts

  /** Only the last lexeme of a text is an end or an error. */
  lemma {:induction false} LexEnds(s: string)
    ensures forall i :: 0 <= i < |Lex(s)| - 1 ==> Lex(s)[i] != End && Lex(s)[i] != Bad
    decreases |s|
  {
    var t := NextToken(s);
    if t.kind != TypeError && t.kind != TypeEof {
      LexEnds(t.rest);
    }
  }

  lemma ParseComplete(s: string, c: Config)
    requires Lex(s) == Lexemes(c) + [End] && NonEmpty(c) && ListenRule(false, Lexemes(c))
    ensures Parse(s) == Some(c)
  {
    var st := InitialState([]);
    RunConcat(st, Lexemes(c), [End]);
    RunConfig(st, c);
    hide Lex, Run, Lexemes, NonEmpty, ListenRule;
    EndAfter(st, c);
  }

  lemma EndAfter(st: ParserState, c: Config)
    requires st == InitialState([])
    ensures Run(AfterConfig(st, c), [End]) == Accept(c)
  {
    assert [] + c == c;
    RunOne(AfterConfig(st, c), End);
  }

  lemma ParseSound(s: string, c: Config)
    requires Parse(s) == Some(c)
    ensures Lex(s) == Lexemes(c) + [End] && NonEmpty(c) && ListenRule(false, Lexemes(c))
  {
    var st, ls := InitialState([]), Lex(s);
    var n := AcceptSplit(st, ls);
    LexEnds(s);
    assert n == |ls| - 1;
    var front := ls[..n];
    assert ls == front + [End];
    hide Lex, ListenRule, NonEmpty, Run;
    RunLexemes(st, front);
    RunRules(st, front);
    NothingRead(front);
    NothingOpen(Run(st, front).state);
  }

  lemma NothingRead(front: seq<Lexeme>)
    ensures StateLexemes(InitialState([])) + front == front
  {
    assert Words([]) == [];
  }

  lemma NothingOpen(st: ParserState)
    requires ValidState(st) && Step(st, End).Accept?
    ensures StateLexemes(st) == Lexemes(Step(st, End).config)
  {
    assert Words([]) == [];
  }

  /** Parse accepts a text with the tree `c` exactly when the lexemes of the text are
      those of `c`, every statement of `c` has a word, and the listen rule holds. */
  lemma ParseAccepts(s: string, c: Config)
    ensures Parse(s) == Some(c) <==> Lex(s) == Lexemes(c) + [End] && NonEmpty(c) && ListenRule(false, Lexemes(c))
  {
    if Parse(s) == Some(c) {
      ParseSound(s, c);
    }
    if Lex(s) == Lexemes(c) + [End] && NonEmpty(c) && ListenRule(false, Lexemes(c)) {
      ParseComplete(s, c);
    }
  }

  // ---------------------------------------------- parsing after existing statements

  /** The state reached when the outermost block already held `c`. */
  function Shift(c: Config, st: ParserState): ParserState {
    if st.outer == [] then st.(done := c + st.done)
    else st.(outer := [st.outer[0].(done := c + st.outer[0].done)] + st.outer[1..])
  }

  function ShiftOutcome(c: Config, r: Outcome): Outcome {
    match r
    case Continue(st) => Continue(Shift(c, st))
    case Accept(d) => Accept(c + d)
    case Reject => Reject
  }

  lemma StepShift(c: Config, st: ParserState, l: Lexeme)
    requires ValidState(st)
    ensures ValidState(Shift(c, st))
    ensures Step(Shift(c, st), l) == ShiftOutcome(c, Step(st, l))
  {
    if st.outer == [] {
      StepShiftTop(c, st, l);
    } else {
      StepShiftNested(c, st, l);
    }
  }

  lemma StepShiftTop(c: Config, st: ParserState, l: Lexeme)
    requires ValidState(st) && st.outer == []
    ensures ValidState(Shift(c, st))
    ensures Step(Shift(c, st), l) == ShiftOutcome(c, Step(st, l))
  {
    match l
    case Semi =>
      var s := Statement(st.tokens, NoBlock);
      assert c + st.done + [s] == c + (st.done + [s]);
    case _ =>
  }

  lemma StepShiftNested(c: Config, st: ParserState, l: Lexeme)
    requires ValidState(st) && st.outer != []
    ensures ValidState(Shift(c, st))
    ensures Step(Shift(c, st), l) == ShiftOutcome(c, Step(st, l))
  {
    var st' := Shift(c, st);
    var n := |st.outer| - 1;
    match l
    case Close =>
      if n == 0 {
        var s := Statement(st.outer[0].tokens, Block(st.done));
        assert c + st.outer[0].done + [s] == c + (st.outer[0].done + [s]);
      } else {
        assert st'.outer[..n] == [st'.outer[0]] + st.outer[..n][1..];
      }
    case Open =>
      var f := Frame(st.done, st.tokens);
      assert st'.outer + [f] == [st'.outer[0]] + (st.outer + [f])[1..];
    case _ =>
  }

  lemma {:induction false} RunShift(c: Config, st: ParserState, ls: seq<Lexeme>)
    requires ValidState(st)
    ensures ValidState(Shift(c, st))
    ensures Run(Shift(c, st), ls) == ShiftOutcome(c, Run(st, ls))
    decreases |ls|
  {
    StepShift(c, st, Bad);
    if ls != [] {
      StepShift(c, st, ls[0]);
      var r := Step(st, ls[0]);
      if r.Continue? {
        RunShift(c, r.state, ls[1..]);
      }
    }
  }

  /** Parsing into a configuration that already holds `c` appends what parsing into an
      empty one yields. */
  lemma ParseIntoAppends(c: Config, s: string)
    ensures ParseInto(c, s) == match Parse(s) case None => None case Some(d) => Some(c + d)
  {
    RunShift(c, InitialState([]), Lex(s));
    assert c + [] == c;
  }

  // --------------------------------------------------------- lexing what was printed

  /** The first lexeme, when it is a word, does not begin like white space, punctuation
      or a comment. */
  lemma {:induction false} FirstWordHead(s: string)
    requires Lex(s)[0].Word?
    ensures var w := Lex(s)[0].text; w != [] && (StartsWord(w[0]) || IsQuote(w[0]))
    decreases |s|
  {
    var t := NextToken(s);
    if t.kind == TypeComment {
      FirstWordHead(t.rest);
    } else {
      WordHead(s);
    }
  }

  /** A token followed by a character that ends words is read back as itself exactly
      when it is printable. */
  lemma LexWord(t: string, u: string)
    requires u != [] && EndsWord(u[0])
    ensures IsPrintable(t) ==> Lex(t + u) == [Word(t)] + Lex(u)
    ensures Lex(t + u)[0] == Word(t) ==> IsPrintable(t)
  {
    if IsPrintable(t) {
      ScanPrintable(t, u);
    }
    if Lex(t + u)[0] == Word(t) {
      FirstWordHead(t + u);
      assert (t + u)[0] == t[0];
      assert NextToken(t + u).kind == TypeNormal;
      ScannedBackIsPrintable(t, u);
    }
  }

  lemma LexPunctuation(u: string)
    ensures Lex(";\n" + u) == [Semi] + Lex(u)
    ensures Lex(" {\n" + u) == [Open] + Lex(u)
    ensures Lex("}\n" + u) == [Close] + Lex(u)
  {
    LexSkipsSpace("\n", u);
    LexMark(';', u);
    LexMark('}', u);
    LexMark('{', u);
    LexSkipsSpace(" ", ['{'] + ("\n" + u));
    hide Lex;
    MarkText(u);
  }

  lemma MarkText(u: string)
    ensures [';'] + ("\n" + u) == ";\n" + u
    ensures ['}'] + ("\n" + u) == "}\n" + u
    ensures " " + (['{'] + ("\n" + u)) == " {\n" + u
  {
  }

  function MarkLexeme(c: char): Lexeme {
    if c == ';' then Semi else if c == '{' then Open else Close
  }

  /** A mark of punctuation is a lexeme of its own. */
  lemma LexMark(c: char, u: string)
    requires c == ';' || c == '{' || c == '}'
    ensures Lex([c] + ("\n" + u)) == [MarkLexeme(c)] + Lex("\n" + u)
  {
    var s := [c] + ("\n" + u);
    assert s[0] == c && s[1..] == "\n" + u;
  }

  /** The first of several tokens, and what is printed after it. */
  lemma JoinText(tokens: seq<string>, u: string) returns (after: string)
    requires tokens != [] && u != [] && EndsWord(u[0])
    ensures JoinTokens(tokens) + u == tokens[0] + after
    ensures after != [] && EndsWord(after[0]) && Lex(after) == Lex(JoinTokens(tokens[1..]) + u)
  {
    if |tokens| == 1 {
      after := u;
      assert "" + u == u;
    } else {
      after := " " + (JoinTokens(tokens[1..]) + u);
      LexSkipsSpace(" ", JoinTokens(tokens[1..]) + u);
    }
  }

  lemma WordsBefore(tokens: seq<string>, ls: seq<Lexeme>)
    requires tokens != []
    ensures Words(tokens) + ls == [Word(tokens[0])] + (Words(tokens[1..]) + ls)
  {
    assert Words(tokens) == [Word(tokens[0])] + Words(tokens[1..]);
  }

  lemma {:induction false} LexTokens(tokens: seq<string>, u: string)
    requires u != [] && EndsWord(u[0])
    requires forall i :: 0 <= i < |tokens| ==> IsPrintable(tokens[i])
    ensures Lex(JoinTokens(tokens) + u) == Words(tokens) + Lex(u)
    decreases |tokens|
  {
    if tokens == [] {
      assert "" + u == u;
    } else {
      hide Lex, IsPrintable, JoinTokens, EndsWord;
      var after := JoinText(tokens, u);
      LexWord(tokens[0], after);
      LexTokens(tokens[1..], u);
      WordsBefore(tokens, Lex(u));
      hide *;
    }
  }

  lemma {:induction false} LexTokensOnly(tokens: seq<string>, u: string)
    requires u != [] && EndsWord(u[0])
    requires Words(tokens) <= Lex(JoinTokens(tokens) + u)
    ensures forall i :: 0 <= i < |tokens| ==> IsPrintable(tokens[i])
    decreases |tokens|
  {
    if tokens != [] {
      var t, rest := tokens[0], tokens[1..];
      var after := JoinText(tokens, u);
      assert Words(tokens) == [Word(t)] + Words(rest);
      assert Lex(t + after)[0] == Words(tokens)[0] == Word(t);
      LexWord(t, after);
      PrefixTail([Word(t)], Words(rest), Lex(after));
      LexTokensOnly(rest, u);
    }
  }

  lemma PrefixTail(a: seq<Lexeme>, b: seq<Lexeme>, c: seq<Lexeme>)
    requires a + b <= a + c
    ensures b <= c
  {
    assert (a + b)[|a|..] == b && (a + c)[|a|..] == c;
    assert (a + b)[|a|..] == (a + c)[|a|..][..|b|];
  }

  // ------------------------------------------------- printable trees are read back

  lemma {:induction false} LexConfig(c: Config, depth: nat, u: string)
    requires AllTokens(c, IsPrintable)
    ensures Lex(PrintConfig(c, depth) + u) == Lexemes(c) + Lex(u)
    decreases c, 0
  {
    if c == [] {
      assert "" + u == u;
    } else {
      var head, tail := PrintStatement(c[0], depth), PrintConfig(c[1..], depth);
      LexStatement(c[0], depth, tail + u);
      LexConfig(c[1..], depth, u);
      Regroup(head, tail, u, "");
      Regroup(StatementLexemes(c[0]), Lexemes(c[1..]), Lex(u), []);
    }
  }

  /** The text of a statement, regrouped. */
  lemma StatementText(s: Statement, depth: nat, u: string)
    ensures PrintStatement(s, depth) + u == Indent(depth) + (JoinTokens(s.tokens) + (PrintTail(s.child, depth) + u))
    ensures Lex(PrintStatement(s, depth) + u) == Lex(JoinTokens(s.tokens) + (PrintTail(s.child, depth) + u))
  {
    IndentIsSpace(depth);
    LexSkipsSpace(Indent(depth), JoinTokens(s.tokens) + (PrintTail(s.child, depth) + u));
  }

  lemma {:induction false} LexStatement(s: Statement, depth: nat, u: string)
    requires AllStatementTokens(s, IsPrintable)
    ensures Lex(PrintStatement(s, depth) + u) == StatementLexemes(s) + Lex(u)
    decreases s, 1
  {
    StatementText(s, depth, u);
    LexTokens(s.tokens, PrintTail(s.child, depth) + u);
    LexTail(s.child, depth, u);
  }

  /** What is printed after the statements of a block. */
  function CloseText(depth: nat, u: string): string {
    Indent(depth) + ("}\n" + u)
  }

  lemma LexCloseText(depth: nat, u: string)
    ensures Lex(CloseText(depth, u)) == [Close] + Lex(u)
  {
    IndentIsSpace(depth);
    LexSkipsSpace(Indent(depth), "}\n" + u);
    LexPunctuation(u);
  }

  /** The text of a block, regrouped. */
  lemma BlockText(c: Config, depth: nat, u: string)
    ensures Lex(PrintTail(Block(c), depth) + u) == [Open] + Lex(PrintConfig(c, depth + 1) + CloseText(depth, u))
  {
    var open, body := " {\n", PrintConfig(c, depth + 1);
    var text := body + CloseText(depth, u);
    LexPunctuation(text);
    RegroupText(open, body, Indent(depth), "}\n", u);
  }

  lemma RegroupText(a: string, b: string, c: string, d: string, e: string)
    ensures a + b + c + d + e == a + (b + (c + (d + e)))
  {
  }

  lemma {:induction false} LexTail(b: Block, depth: nat, u: string)
    requires b.Block? ==> AllTokens(b.statements, IsPrintable)
    ensures Lex(PrintTail(b, depth) + u) == TailLexemes(b) + Lex(u)
    decreases b, 0
  {
    match b
    case NoBlock =>
      LexPunctuation(u);
    case Block(c) =>
      BlockText(c, depth, u);
      LexConfig(c, depth + 1, CloseText(depth, u));
      LexCloseText(depth, u);
      Regroup([Open], Lexemes(c), [Close], Lex(u));
  }

  // --------------------------------------------- only printable trees are read back

  lemma {:induction false} LexConfigOnly(c: Config, depth: nat, u: string)
    requires Lexemes(c) <= Lex(PrintConfig(c, depth) + u)
    ensures AllTokens(c, IsPrintable)
    decreases c, 0
  {
    if c != [] {
      var head, tail := StatementLexemes(c[0]), PrintConfig(c[1..], depth);
      assert PrintStatement(c[0], depth) + tail + u == PrintStatement(c[0], depth) + (tail + u);
      hide Lex, PrintStatement, StatementLexemes, IsPrintable;
      LexStatementOnly(c[0], depth, tail + u);
      LexStatement(c[0], depth, tail + u);
      PrefixTail(head, Lexemes(c[1..]), Lex(tail + u));
      LexConfigOnly(c[1..], depth, u);
    }
  }

  lemma {:induction false} LexStatementOnly(s: Statement, depth: nat, u: string)
    requires StatementLexemes(s) <= Lex(PrintStatement(s, depth) + u)
    ensures AllStatementTokens(s, IsPrintable)
    decreases s, 1
  {
    var text := PrintTail(s.child, depth) + u;
    StatementText(s, depth, u);
    LexTokensOnly(s.tokens, text);
    LexTokens(s.tokens, text);
    PrefixTail(Words(s.tokens), TailLexemes(s.child), Lex(text));
    if s.child.Block? {
      LexBlockOnly(s.child.statements, depth, u);
    }
  }

  lemma {:induction false} LexBlockOnly(c: Config, depth: nat, u: string)
    requires TailLexemes(Block(c)) <= Lex(PrintTail(Block(c), depth) + u)
    ensures AllTokens(c, IsPrintable)
    decreases c, 1
  {
    var after := CloseText(depth, u);
    var text := PrintConfig(c, depth + 1) + after;
    BlockText(c, depth, u);
    BlockLexemes(c);
    hide *;
    PrefixTail([Open], Lexemes(c) + [Close], Lex(text));
    assert Lexemes(c) <= Lex(text);
    LexConfigOnly(c, depth + 1, after);
  }

  // ------------------------------------------------------------------ main results

  /** Printing a tree and parsing the text gives the tree back exactly when the tree is
      well formed, at any nesting depth. */
  lemma PrintThenParse(c: Config)
    ensures Parse(Print(c)) == Some(c) <==> WellFormed(c)
  {
    ParseAccepts(Print(c), c);
    assert Print(c) + "" == Print(c);
    assert Lex("") == [End];
    if AllTokens(c, IsPrintable) {
      LexConfig(c, 0, "");
    }
    if Lex(Print(c)) == Lexemes(c) + [End] {
      LexConfigOnly(c, 0, "");
    }
  }

  /** A tree that came out of the parser survives printing exactly when its tokens are
      printable; it always does when the text had no backslash. */
  lemma ParseThenPrint(s: string, c: Config)
    requires Parse(s) == Some(c)
    ensures Parse(Print(c)) == Some(c) <==> AllTokens(c, IsPrintable)
    ensures NoBackslash(s) ==> Parse(Print(c)) == Some(c)
  {
    ParseAccepts(s, c);
    PrintThenParse(c);
    if NoBackslash(s) {
      var all := LexPrintable(s);
      var ls := Lexemes(c);
      assert all == ls + [End];
      assert forall i :: 0 <= i < |ls| ==> all[i] == ls[i];
      assert forall i :: 0 <= i < |ls| && ls[i].Word? ==> IsPrintable(ls[i].text);
      LexemesPrintable(c);
    }
  }

  lemma {:induction false} LexemesPrintable(c: Config)
    requires forall i :: 0 <= i < |Lexemes(c)| && Lexemes(c)[i].Word? ==> IsPrintable(Lexemes(c)[i].text)
    ensures AllTokens(c, IsPrintable)
    decreases c, 0
  {
    if c != [] {
      var head, tail := StatementLexemes(c[0]), Lexemes(c[1..]);
      forall i | 0 <= i < |head| && head[i].Word?
        ensures IsPrintable(head[i].text)
      {
        assert Lexemes(c)[i] == head[i];
      }
      forall i | 0 <= i < |tail| && tail[i].Word?
        ensures IsPrintable(tail[i].text)
      {
        assert Lexemes(c)[|head| + i] == tail[i];
      }
      StatementLexemesPrintable(c[0]);
      LexemesPrintable(c[1..]);
    }
  }

  lemma {:induction false} StatementLexemesPrintable(s: Statement)
    requires forall i :: 0 <= i < |StatementLexemes(s)| && StatementLexemes(s)[i].Word? ==> IsPrintable(StatementLexemes(s)[i].text)
    ensures AllStatementTokens(s, IsPrintable)
    decreases s, 1
  {
    var ls, n := StatementLexemes(s), |s.tokens|;
    forall i | 0 <= i < n
      ensures IsPrintable(s.tokens[i])
    {
      assert ls[i] == Word(s.tokens[i]);
    }
    if s.child.Block? {
      var inner := Lexemes(s.child.statements);
      var tail := TailLexemes(s.child);
      assert tail == [Open] + inner + [Close];
      forall i | 0 <= i < |inner| && inner[i].Word?
        ensures IsPrintable(inner[i].text)
      {
        assert tail[1 + i] == inner[i];
        assert ls[n + (1 + i)] == tail[1 + i];
      }
      LexemesPrintable(s.child.statements);
    }
  }

  /** Text without backslashes is brought to a normal form by one parse and one print:
      the normal form is accepted, has the same tree, and prints as itself. */
  lemma NormalForm(s: string)
    requires NoBackslash(s) && Parse(s).Some?
    ensures var text := Print(Parse(s).value);
            && Parse(text) == Parse(s)
            && Print(Parse(text).value) == text
  {
    ParseThenPrint(s, Parse(s).value);
  }

  /** What the end of the file leaves unfinished changes neither whether a text is accepted nor its
      tree: text without delimiters and quotes or a bare word behind any text, and any bare word at
      all behind a boundary. */
  lemma LastWordIsLost(s: string, w: string)
    requires IsUnfinished(w) || (EndsClean(s) && IsBareWord(w))
    ensures Parse(s + w) == Parse(s)
  {
    if IsUnfinished(w) {
      UnfinishedIsDropped(s, w);
    } else {
      LexJoins(s, w);
      BareWordEnds(w);
      var ls := Lex(s);
      assert ls == ls[..|ls| - 1] + [End];
    }
  }

  lemma LexOneWord()
    ensures Lex("a;") == [Word("a"), Semi, End]
  {
    LexWord("a", ";");
    LexSemi();
    assert "a" + ";" == "a;";
  }

  lemma OneWordIsGood(c: Config, word: string)
    requires c == [Statement([word], NoBlock)] && Lexemes(c) == [Word(word), Semi] && word != "listen"
    ensures NonEmpty(c) && ListenRule(false, Lexemes(c))
  {
    assert NonEmptyStatement(c[0]) && c[1..] == [] && NonEmpty(c[1..]);
    assert [Semi][1..] == [] && [Word(word), Semi][1..] == [Semi];
  }

  /** One statement of one word, when it is not "listen". */
  lemma ParseOneWord(s: string, word: string)
    requires Lex(s) == [Word(word), Semi, End] && word != "listen"
    ensures Parse(s) == Some([Statement([word], NoBlock)])
  {
    var c := [Statement([word], NoBlock)];
    assert c[1..] == [] && Words([word]) == [Word(word)];
    assert Lexemes(c) == StatementLexemes(c[0]) == [Word(word), Semi];
    assert [Semi][1..] == [] && [Word(word), Semi][1..] == [Semi];
    OneWordIsGood(c, word);
    hide Lex, Parse, NonEmpty, ListenRule;
    ParseAccepts(s, c);
  }

  /** The word that the end of the file leaves unfinished here is not in the tree. */
  lemma UnfinishedWord()
    ensures Parse("a;it's") == Some([Statement(["a"], NoBlock)])
  {
    assert IsUnfinished("it's");
    LastWordIsLost("a;", "it's");
    assert "a;" + "it's" == "a;it's";
    LexOneWord();
    hide Lex, Parse;
    ParseOneWord("a;", "a");
  }

  /** A quoted token of one escaped quote. */
  lemma LexEscaped()
    ensures Lex("\"\\\"\";") == [Word("\"\"\""), Semi, End]
  {
    var s := "\"\\\"\";";
    var q := Quoted('"');
    assert s[1..] == "\\\"\";" && s[1..][1..] == "\"\";" && s[1..][1..][1..] == "\";";
    assert Scan(q, "\";") == Scanned(TypeNormal, "\"", ";") by {
      assert "\";"[1..] == ";";
    }
    assert Scan(q, s[1..]) == Prepend('"', Scan(q, "\";"));
    assert NextToken(s) == Scanned(TypeNormal, "\"\"\"", ";");
    LexSemi();
  }

  lemma LexSemi()
    ensures Lex(";") == [Semi, End]
  {
    assert ";"[1..] == "" && NextToken(";") == Scanned(TypeStatementEnd, ";", "");
    assert Lex(";") == [Semi] + Lex("") && Lex("") == [End];
  }

  /** An escaped quote inside a quoted token loses its backslash, and the printed token is
      another text: here the tree of one accepted input is not read back. */
  lemma EscapeIsLost()
    ensures var s, c := "\"\\\"\";", [Statement(["\"\"\""], NoBlock)];
            Parse(s) == Some(c) && Parse(Print(c)) != Some(c)
  {
    var c := [Statement(["\"\"\""], NoBlock)];
    LexEscaped();
    hide Lex, Parse, Print;
    ParseOneWord("\"\\\"\";", "\"\"\"");
    var token := c[0].tokens[0];
    assert token[1] == token[0] && !IsPrintable(token);
    PrintThenParse(c);
  }
}
