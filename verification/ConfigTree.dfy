/** The configuration tree and its printer.
    A configuration is a sequence of statements; a statement is a sequence of tokens
    that ends in ';' or in a block of further statements. */
module ConfigTree {
  import opened Sequences

  datatype Block = NoBlock | Block(statements: seq<Statement>)

  datatype Statement = Statement(tokens: seq<string>, child: Block)

  type Config = seq<Statement>

  /** Two spaces for every level of nesting. */
  function Indent(depth: nat): string {
    if depth == 0 then "" else Indent(depth - 1) + "  "
  }

  /** The tokens of a statement with one space between neighbours. */
  function JoinTokens(tokens: seq<string>): string {
    if tokens == [] then ""
    else if |tokens| == 1 then tokens[0]
    else tokens[0] + " " + JoinTokens(tokens[1..])
  }

  function PrintConfig(c: Config, depth: nat): string
    decreases c, 0
  {
    if c == [] then "" else PrintStatement(c[0], depth) + PrintConfig(c[1..], depth)
  }

  function PrintStatement(s: Statement, depth: nat): string
    decreases s, 1
  {
    Indent(depth) + JoinTokens(s.tokens) + PrintTail(s.child, depth)
  }

  /** What follows the tokens of a statement. */
  function PrintTail(b: Block, depth: nat): string
    decreases b, 0
  {
    match b
    case NoBlock => ";\n"
    case Block(c) => " {\n" + PrintConfig(c, depth + 1) + Indent(depth) + "}\n"
  }

  /** The punctuation and words of a configuration text, white space and comments gone. */
  datatype Lexeme = Word(text: string) | Semi | Open | Close | End | Bad

  function Words(tokens: seq<string>): (r: seq<Lexeme>)
    ensures |r| == |tokens|
    ensures forall i :: 0 <= i < |tokens| ==> r[i] == Word(tokens[i])
  {
    seq(|tokens|, i requires 0 <= i < |tokens| => Word(tokens[i]))
  }

  /** The lexemes of a tree in preorder. */
  function Lexemes(c: Config): seq<Lexeme>
    decreases c, 0
  {
    if c == [] then [] else StatementLexemes(c[0]) + Lexemes(c[1..])
  }

  function StatementLexemes(s: Statement): seq<Lexeme>
    decreases s, 1
  {
    Words(s.tokens) + TailLexemes(s.child)
  }

  function TailLexemes(b: Block): seq<Lexeme>
    decreases b, 0
  {
    match b
    case NoBlock => [Semi]
    case Block(c) => [Open] + Lexemes(c) + [Close]
  }

  /** Every statement, at every depth, has a token. */
  predicate NonEmpty(c: Config)
    decreases c, 0
  {
    c == [] || (NonEmptyStatement(c[0]) && NonEmpty(c[1..]))
  }

  predicate NonEmptyStatement(s: Statement)
    decreases s, 1
  {
    s.tokens != [] && (s.child.NoBlock? || NonEmpty(s.child.statements))
  }

  /** Every token, at every depth, satisfies `p`. */
  predicate AllTokens(c: Config, p: string -> bool)
    decreases c, 0
  {
    c == [] || (AllStatementTokens(c[0], p) && AllTokens(c[1..], p))
  }

  predicate AllStatementTokens(s: Statement, p: string -> bool)
    decreases s, 1
  {
    && (forall i :: 0 <= i < |s.tokens| ==> p(s.tokens[i]))
    && (s.child.NoBlock? || AllTokens(s.child.statements, p))
  }

  predicate IsDigits(s: string) {
    forall i :: 0 <= i < |s| ==> '0' <= s[i] <= '9'
  }

  /** The listen rule over the words of a lexeme list: the word after the keyword
      "listen" is made of digits only, wherever braces and semicolons fall between the
      two.  `awaiting` says that the word before the list was the keyword. */
  predicate ListenRule(awaiting: bool, ls: seq<Lexeme>)
    decreases |ls|
  {
    if ls == [] then true
    else if !ls[0].Word? then ListenRule(awaiting, ls[1..])
    else (awaiting ==> IsDigits(ls[0].text)) && ListenRule(AwaitsAfterWord(awaiting, ls[0].text), ls[1..])
  }

  /** Whether a digit word is expected after the word `w`. */
  predicate AwaitsAfterWord(awaiting: bool, w: string) {
    !awaiting && w == "listen"
  }

  /** The expectation after a whole lexeme list. */
  predicate AwaitsAfter(awaiting: bool, ls: seq<Lexeme>)
    decreases |ls|
  {
    if ls == [] then awaiting
    else if !ls[0].Word? then AwaitsAfter(awaiting, ls[1..])
    else AwaitsAfter(AwaitsAfterWord(awaiting, ls[0].text), ls[1..])
  }

  lemma {:induction false} LexemesConcat(a: Config, b: Config)
    ensures Lexemes(a + b) == Lexemes(a) + Lexemes(b)
  {
    if a == [] {
      assert a + b == b;
    } else {
      var head, tail := a[0], a[1..];
      LexemesConcat(tail, b);
      assert (a + b)[0] == head && (a + b)[1..] == tail + b;
      Regroup(StatementLexemes(head), Lexemes(tail), Lexemes(b), []);
    }
  }

  lemma {:induction false} NonEmptyConcat(a: Config, b: Config)
    ensures NonEmpty(a + b) <==> NonEmpty(a) && NonEmpty(b)
  {
    if a == [] {
      assert a + b == b;
    } else {
      NonEmptyConcat(a[1..], b);
      assert (a + b)[1..] == a[1..] + b;
    }
  }

  lemma {:induction false} ListenRuleConcat(awaiting: bool, a: seq<Lexeme>, b: seq<Lexeme>)
    ensures ListenRule(awaiting, a + b) <==> ListenRule(awaiting, a) && ListenRule(AwaitsAfter(awaiting, a), b)
    ensures AwaitsAfter(awaiting, a + b) == AwaitsAfter(AwaitsAfter(awaiting, a), b)
    decreases |a|
  {
    if a == [] {
      assert a + b == b;
    } else {
      assert (a + b)[1..] == a[1..] + b;
      ListenRuleConcat(if a[0].Word? then AwaitsAfterWord(awaiting, a[0].text) else awaiting, a[1..], b);
    }
  }
}
