/** The block parser as a state machine over lexemes, and what it accepts: exactly the
    lexeme lists of trees of non-empty statements that obey the listen rule. */
module ConfigGrammar {
  import opened Wrappers
  import opened Sequences
  import opened ConfigTree
  import opened ConfigLexer

  /** An open block: its complete statements, and the words of the statement that owns
      the next block inwards. */
  datatype Frame = Frame(done: Config, tokens: seq<string>)

  /** The open blocks around the innermost one, outermost first; the complete statements
      of the innermost block; the words of the statement being read, if any; the last
      token type; and whether a digit word must follow. */
  datatype ParserState = ParserState(
    outer: seq<Frame>, done: Config, tokens: seq<string>, last: TokenType, listening: bool)

  datatype Outcome = Continue(state: ParserState) | Accept(config: Config) | Reject

  function InitialState(c: Config): ParserState {
    ParserState([], c, [], TypeStart, false)
  }

  predicate ValidState(st: ParserState) {
    && (st.tokens != [] <==> st.last == TypeNormal)
    && forall i :: 0 <= i < |st.outer| ==> st.outer[i].tokens != []
  }

  function Step(st: ParserState, l: Lexeme): (r: Outcome)
    requires ValidState(st)
    ensures r.Continue? ==> ValidState(r.state)
  {
    match l
    case Bad => Reject
    case Word(w) =>
      if st.listening && !IsDigits(w) then Reject
      else Continue(st.(tokens := st.tokens + [w], last := TypeNormal, listening := AwaitsAfterWord(st.listening, w)))
    case Semi =>
      if st.last != TypeNormal then Reject
      else Continue(st.(done := st.done + [Statement(st.tokens, NoBlock)], tokens := [], last := TypeStatementEnd))
    case Open =>
      if st.last != TypeNormal then Reject
      else Continue(st.(outer := st.outer + [Frame(st.done, st.tokens)], done := [], tokens := [], last := TypeStartBlock))
    case Close =>
      if st.last != TypeStatementEnd && st.last != TypeStartBlock && st.last != TypeEndBlock then Reject
      else if st.outer == [] then Reject
      else
        var n := |st.outer| - 1;
        var f := st.outer[n];
        Continue(st.(outer := st.outer[..n], done := f.done + [Statement(f.tokens, Block(st.done))], last := TypeEndBlock))
    case End =>
      if st.last != TypeStatementEnd && st.last != TypeEndBlock && st.last != TypeStart then Reject
      else if st.outer != [] then Reject
      else Accept(st.done)
  }

  /** Runs the machine until it accepts, rejects, or the lexemes are used up. */
  function Run(st: ParserState, ls: seq<Lexeme>): (r: Outcome)
    requires ValidState(st)
    ensures r.Continue? ==> ValidState(r.state)
    decreases |ls|
  {
    if ls == [] then Continue(st)
    else
      var r := Step(st, ls[0]);
      if r.Continue? then Run(r.state, ls[1..]) else r
  }

  /** What Parse makes of a text, appending to a configuration that holds `c`. */
  function ParseInto(c: Config, s: string): Option<Config> {
    var r := Run(InitialState(c), Lex(s));
    if r.Accept? then Some(r.config) else None
  }

  function Parse(s: string): Option<Config> {
    ParseInto([], s)
  }

  function Print(c: Config): string {
    PrintConfig(c, 0)
  }

  lemma {:induction false} RunConcat(st: ParserState, a: seq<Lexeme>, b: seq<Lexeme>)
    requires ValidState(st)
    ensures Run(st, a + b) == (var r := Run(st, a); if r.Continue? then Run(r.state, b) else r)
    decreases |a|
  {
    if a == [] {
      assert a + b == b;
    } else {
      assert (a + b)[0] == a[0] && (a + b)[1..] == a[1..] + b;
      var r := Step(st, a[0]);
      if r.Continue? {
        RunConcat(r.state, a[1..], b);
      }
    }
  }

  lemma RunOne(st: ParserState, l: Lexeme)
    requires ValidState(st)
    ensures Run(st, [l]) == Step(st, l)
  {
    assert [l][1..] == [];
  }

  // ------------------------------------------- every tree's lexemes are accepted

  function EndType(b: Block): TokenType {
    if b.NoBlock? then TypeStatementEnd else TypeEndBlock
  }

  /** Between statements: where a statement may begin and a block or the text may end. */
  predicate AtBoundary(st: ParserState) {
    st.last == TypeStatementEnd || st.last == TypeStartBlock || st.last == TypeEndBlock || st.last == TypeStart
  }

  /** The state after the statements `c` have been read at a boundary. */
  function AfterConfig(st: ParserState, c: Config): ParserState {
    st.(done := st.done + c,
        last := if c == [] then st.last else EndType(c[|c| - 1].child),
        listening := AwaitsAfter(st.listening, Lexemes(c)))
  }

  /** Reading the lexemes of `c` appends `c` to the innermost open block. */
  lemma {:induction false} RunConfig(st: ParserState, c: Config)
    requires ValidState(st) && AtBoundary(st)
    requires NonEmpty(c) && ListenRule(st.listening, Lexemes(c))
    ensures Run(st, Lexemes(c)) == Continue(AfterConfig(st, c))
    decreases c, 0
  {
    if c == [] {
      assert st.done + c == st.done;
    } else {
      var head, tail := c[0], c[1..];
      ListenRuleConcat(st.listening, StatementLexemes(head), Lexemes(tail));
      RunConcat(st, StatementLexemes(head), Lexemes(tail));
      RunStatement(st, head);
      RunConfig(AfterStatement(st, head), tail);
      assert st.done + [head] + tail == st.done + c;
    }
  }

  function AfterStatement(st: ParserState, s: Statement): ParserState {
    st.(done := st.done + [s],
        last := EndType(s.child),
        listening := AwaitsAfter(st.listening, StatementLexemes(s)))
  }

  lemma {:induction false} RunStatement(st: ParserState, s: Statement)
    requires ValidState(st) && AtBoundary(st)
    requires NonEmptyStatement(s) && ListenRule(st.listening, StatementLexemes(s))
    ensures Run(st, StatementLexemes(s)) == Continue(AfterStatement(st, s))
    decreases s, 1
  {
    var words, tail := Words(s.tokens), TailLexemes(s.child);
    ListenRuleConcat(st.listening, words, tail);
    RunConcat(st, words, tail);
    RunWords(st, s.tokens);
    assert st.tokens + s.tokens == s.tokens;
    RunTail(Run(st, words).state, s.child);
  }

  lemma {:induction false} RunWords(st: ParserState, tokens: seq<string>)
    requires ValidState(st)
    requires tokens != [] && ListenRule(st.listening, Words(tokens))
    ensures Run(st, Words(tokens)) == Continue(st.(
                                        tokens := st.tokens + tokens,
                                        last := TypeNormal,
                                        listening := AwaitsAfter(st.listening, Words(tokens))))
    decreases |tokens|
  {
    var w, rest := tokens[0], tokens[1..];
    var st' := Step(st, Word(w)).state;
    assert Words(tokens)[0] == Word(w) && Words(tokens)[1..] == Words(rest);
    if rest == [] {
      assert st.tokens + [w] == st.tokens + tokens;
    } else {
      RunWords(st', rest);
      assert st.tokens + [w] + rest == st.tokens + tokens;
    }
  }

  /** The end of a statement completes the one being read. */
  lemma {:induction false} RunTail(st: ParserState, b: Block)
    requires ValidState(st) && st.last == TypeNormal
    requires b.Block? ==> NonEmpty(b.statements)
    requires ListenRule(st.listening, TailLexemes(b))
    ensures Run(st, TailLexemes(b)) == Continue(st.(
                                         done := st.done + [Statement(st.tokens, b)],
                                         tokens := [],
                                         last := EndType(b),
                                         listening := AwaitsAfter(st.listening, TailLexemes(b))))
    decreases b, 0
  {
    match b
    case NoBlock =>
      RunOne(st, Semi);
    case Block(c) =>
      BlockLexemes(c);
      ListenRuleConcat(st.listening, Lexemes(c), [Close]);
      var inner := Step(st, Open).state;
      RunConcat(inner, Lexemes(c), [Close]);
      RunConfig(inner, c);
      hide NonEmpty, Lexemes, ListenRule, AwaitsAfter;
      CloseInner(st, inner, c);
  }

  lemma BlockLexemes(c: Config)
    ensures TailLexemes(Block(c)) == [Open] + (Lexemes(c) + [Close])
    ensures TailLexemes(Block(c))[1..] == Lexemes(c) + [Close]
  {
  }

  /** The brace that closes the block opened in `st`. */
  lemma CloseInner(st: ParserState, inner: ParserState, c: Config)
    requires ValidState(st) && Step(st, Open) == Continue(inner)
    ensures ValidState(AfterConfig(inner, c))
    ensures Run(AfterConfig(inner, c), [Close]) ==
            Continue(st.(done := st.done + [Statement(st.tokens, Block(c))],
                         last := TypeEndBlock,
                         tokens := [],
                         listening := AwaitsAfter(st.listening, Lexemes(c))))
  {
    assert [] + c == c;
    assert inner.outer[..|st.outer|] == st.outer;
    RunOne(AfterConfig(inner, c), Close);
  }

  // --------------------------------------------- only trees' lexemes are accepted

  /** The lexemes that lead to a stack of open blocks. */
  function OuterLexemes(outer: seq<Frame>): seq<Lexeme>
    decreases |outer|
  {
    if outer == [] then []
    else
      var n := |outer| - 1;
      OuterLexemes(outer[..n]) + Lexemes(outer[n].done) + Words(outer[n].tokens) + [Open]
  }

  function StateLexemes(st: ParserState): seq<Lexeme> {
    OuterLexemes(st.outer) + Lexemes(st.done) + Words(st.tokens)
  }

  /** The complete statements of a state have words everywhere. */
  predicate NonEmptyState(st: ParserState) {
    NonEmpty(st.done) && forall i :: 0 <= i < |st.outer| ==> NonEmpty(st.outer[i].done)
  }

  lemma AppendStatement(c: Config, s: Statement)
    ensures Lexemes(c + [s]) == Lexemes(c) + StatementLexemes(s)
    ensures NonEmpty(c + [s]) <==> NonEmpty(c) && NonEmptyStatement(s)
  {
    LexemesConcat(c, [s]);
    NonEmptyConcat(c, [s]);
    assert [s][1..] == [];
  }

  lemma StepWord(st: ParserState, w: string)
    requires ValidState(st) && Step(st, Word(w)).Continue?
    ensures StateLexemes(Step(st, Word(w)).state) == StateLexemes(st) + [Word(w)]
  {
    assert Words(st.tokens + [w]) == Words(st.tokens) + [Word(w)];
  }

  lemma StepSemi(st: ParserState)
    requires ValidState(st) && Step(st, Semi).Continue?
    ensures StateLexemes(Step(st, Semi).state) == StateLexemes(st) + [Semi]
  {
    AppendStatement(st.done, Statement(st.tokens, NoBlock));
    assert Words([]) == [];
  }

  lemma StepOpen(st: ParserState)
    requires ValidState(st) && Step(st, Open).Continue?
    ensures StateLexemes(Step(st, Open).state) == StateLexemes(st) + [Open]
  {
    var outer' := st.outer + [Frame(st.done, st.tokens)];
    assert outer'[..|st.outer|] == st.outer;
    assert Words([]) == [];
  }

  lemma StepClose(st: ParserState)
    requires ValidState(st) && Step(st, Close).Continue?
    ensures StateLexemes(Step(st, Close).state) == StateLexemes(st) + [Close]
  {
    var n := |st.outer| - 1;
    var f := st.outer[n];
    AppendStatement(f.done, Statement(f.tokens, Block(st.done)));
    ClosedLexemes(OuterLexemes(st.outer[..n]), Lexemes(f.done), Words(f.tokens), Lexemes(st.done));
    assert Words([]) == [];
  }

  /** One step of the machine appends one lexeme to what the state stands for. */
  lemma StepLexemes(st: ParserState, l: Lexeme)
    requires ValidState(st) && Step(st, l).Continue?
    ensures StateLexemes(Step(st, l).state) == StateLexemes(st) + [l]
  {
    match l
    case Word(w) => StepWord(st, w);
    case Semi => StepSemi(st);
    case Open => StepOpen(st);
    case Close => StepClose(st);
    case _ =>
  }

  lemma StepNonEmpty(st: ParserState, l: Lexeme)
    requires ValidState(st) && NonEmptyState(st) && Step(st, l).Continue?
    ensures NonEmptyState(Step(st, l).state)
  {
    AppendStatement(st.done, Statement(st.tokens, NoBlock));
    if l == Close {
      var f := st.outer[|st.outer| - 1];
      AppendStatement(f.done, Statement(f.tokens, Block(st.done)));
    }
  }

  lemma ClosedLexemes(a: seq<Lexeme>, b: seq<Lexeme>, ws: seq<Lexeme>, c: seq<Lexeme>)
    ensures a + (b + (ws + ([Open] + c + [Close]))) == (((a + b) + ws) + [Open]) + c + [Close]
  {
  }

  /** A run appends its lexemes to what the state stands for. */
  lemma {:induction false} RunLexemes(st: ParserState, ls: seq<Lexeme>)
    requires ValidState(st) && NonEmptyState(st)
    requires Run(st, ls).Continue?
    ensures var st' := Run(st, ls).state;
            && StateLexemes(st') == StateLexemes(st) + ls
            && NonEmptyState(st')
    decreases |ls|
  {
    if ls == [] {
      assert StateLexemes(st) + ls == StateLexemes(st);
    } else {
      var l, rest := ls[0], ls[1..];
      StepLexemes(st, l);
      StepNonEmpty(st, l);
      RunLexemes(Step(st, l).state, rest);
      assert ls == [l] + rest;
      Regroup(StateLexemes(st), [l], rest, []);
    }
  }

  /** The words a run reads obey the listen rule, and the depth of the stack is that of
      the braces. */
  lemma {:induction false} RunRules(st: ParserState, ls: seq<Lexeme>)
    requires ValidState(st) && Run(st, ls).Continue?
    ensures ListenRule(st.listening, ls)
    ensures |Run(st, ls).state.outer| == |st.outer| + Braces(ls)
    decreases |ls|
  {
    if ls != [] {
      RunRules(Step(st, ls[0]).state, ls[1..]);
    }
  }

  /** Opening braces less closing braces. */
  function Braces(ls: seq<Lexeme>): int
    decreases |ls|
  {
    if ls == [] then 0
    else (if ls[0] == Open then 1 else if ls[0] == Close then -1 else 0) + Braces(ls[1..])
  }

  /** A finished run read End or Bad last or was rejected; an accepting one read End. */
  lemma {:induction false} AcceptSplit(st: ParserState, ls: seq<Lexeme>) returns (n: nat)
    requires ValidState(st) && Run(st, ls).Accept?
    ensures n < |ls| && ls[n] == End && Run(st, ls[..n]).Continue?
    ensures Step(Run(st, ls[..n]).state, End) == Run(st, ls)
    decreases |ls|
  {
    var r := Step(st, ls[0]);
    if r.Continue? {
      var m := AcceptSplit(r.state, ls[1..]);
      n := m + 1;
      assert ls[..n][0] == ls[0] && ls[..n][1..] == ls[1..][..m];
    } else {
      n := 0;
    }
  }
}
