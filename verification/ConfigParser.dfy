/** The configuration parser as it runs: a character stream with one character of
    push-back, a tokenizer loop, and a loop that builds a tree of objects in place
    through a stack of pointers into it. */
module ConfigParser {
  import opened Wrappers
  import opened ConfigTree
  import opened ConfigLexer
  import opened ConfigGrammar

  class InputStream {
    const data: string
    var pos: nat
    var good: bool

    /** A stream goes bad only by reading past its end. */
    ghost predicate Valid()
      reads this
    {
      pos <= |data| && (!good ==> pos == |data|)
    }

    ghost function Rest(): string
      requires Valid()
      reads this
    {
      data[pos..]
    }

    constructor (text: string)
      ensures Valid() && Rest() == text
    {
      data, pos, good := text, 0, true;
    }

    method Get() returns (c: char)
      requires Valid() && good
      modifies this
      ensures Valid()
      ensures old(Rest()) == "" ==> !good && c == EOF_CHAR && Rest() == ""
      ensures old(Rest()) != "" ==> good && c == old(Rest())[0] && Rest() == old(Rest())[1..] && pos == old(pos) + 1
    {
      if pos == |data| {
        good := false;
        c := EOF_CHAR;
      } else {
        c := data[pos];
        pos := pos + 1;
      }
    }

    method Peek() returns (c: Option<char>)
      requires Valid()
      modifies `good
      ensures Valid() && Rest() == old(Rest())
      ensures c == if Rest() == "" then None else Some(Rest()[0])
    {
      if pos == |data| {
        good := false;
        c := None;
      } else {
        c := Some(data[pos]);
      }
    }

    method Unget()
      requires Valid() && 0 < pos
      modifies this
      ensures Valid() && pos == old(pos) - 1 && good == old(good || pos == |data|)
    {
      good := good || pos == |data|;
      pos := pos - 1;
    }
  }

  /** The token `r` with `value` collected before it. */
  function Collected(value: string, r: Scanned): Scanned {
    r.(text := value + r.text)
  }

  lemma CollectOne(value: string, c: char, r: Scanned)
    ensures Collected(value, Prepend(c, r)) == Collected(value + [c], r)
  {
    assert value + ([c] + r.text) == value + [c] + r.text;
  }

  /** The character `c`, the first of `before`, inside a quoted token: what is collected with it,
      and the kind of the token if it ends there. */
  method ReadQuoted(input: InputStream, q: char, c: char, value: string, ghost before: string)
    returns (end: Option<TokenType>, value': string)
    requires input.Valid() && input.good
    requires before != "" && before[0] == c && before[1..] == input.Rest()
    modifies input
    ensures input.Valid() && |input.Rest()| <= |old(input.Rest())|
    ensures Collected(value, Scan(Quoted(q), before)) ==
            match end
            case Some(kind) => Scanned(kind, value', input.Rest())
            case None => Collected(value', Scan(Quoted(q), input.Rest()))
  {
    end, value' := None, value + [c];
    ghost var after := input.Rest();
    if c == '\\' {
      var next := input.Get();
      CollectOne(value, next, Scan(Quoted(q), input.Rest()));
      value' := value + [next];
    } else {
      CollectOne(value, c, Scan(Quoted(q), after));
      if c == q {
        var next := input.Peek();
        end := Some(if next.Some? && EndsWord(next.value) then TypeNormal else TypeError);
      }
    }
  }

  /** Reads one token: its kind, its text, and the stream left just after it. */
  method ParseToken(input: InputStream) returns (kind: TokenType, value: string)
    requires input.Valid()
    modifies input
    ensures input.Valid()
    ensures Scanned(kind, value, input.Rest()) == NextToken(old(input.Rest()))
  {
    var state := InitialWhitespace;
    value := "";
    ghost var whole := NextToken(input.Rest());
    assert whole == Collected("", whole);
    while input.good
      invariant input.Valid()
      invariant state == InitialWhitespace ==> value == ""
      invariant whole == Collected(value, Scan(state, input.Rest()))
      decreases |input.Rest()|, input.good
    {
      ghost var before := input.Rest();
      var c := input.Get();
      if !input.good {
        break;
      }
      ghost var after := input.Rest();
      match state
      case InitialWhitespace =>
        if c == '{' {
          value := [c];
          return TypeStartBlock, value;
        } else if c == '}' {
          value := [c];
          return TypeEndBlock, value;
        } else if c == '#' {
          CollectOne(value, c, Scan(InComment, after));
          value := [c];
          state := InComment;
        } else if IsQuote(c) {
          CollectOne(value, c, Scan(Quoted(c), after));
          value := [c];
          state := Quoted(c);
        } else if c == ';' {
          value := [c];
          return TypeStatementEnd, value;
        } else if !IsSpace(c) {
          CollectOne(value, c, Scan(InNormal, after));
          value := value + [c];
          state := InNormal;
        }
      case Quoted(q) =>
        var end;
        end, value := ReadQuoted(input, q, c, value, before);
        if end.Some? {
          return end.value, value;
        }
      case InComment =>
        if c == '\n' || c == '\r' {
          return TypeComment, value;
        }
        CollectOne(value, c, Scan(state, after));
        value := value + [c];
      case InNormal =>
        if EndsWord(c) {
          input.Unget();
          assert input.Rest() == before;
          return TypeNormal, value;
        }
        CollectOne(value, c, Scan(state, after));
        value := value + [c];
    }
    if state.Quoted? {
      return TypeError, value;
    }
    return TypeEof, value;
  }

  // ------------------------------------------------------------- the tree of objects

  class NginxConfigStatement {
    var tokens: seq<string>
    var child: NginxConfig?

    constructor ()
      ensures tokens == [] && child == null
    {
      tokens, child := [], null;
    }

    /** The text of this statement, which stands for `v`. */
    method ToString(depth: nat, ghost v: Statement, ghost closed: set<object>) returns (s: string)
      requires IsStatement(this, v, closed)
      ensures s == PrintStatement(v, depth)
      decreases v, 1
    {
      var indent := "";
      for i := 0 to depth
        invariant indent == Indent(i)
      {
        indent := indent + "  ";
      }
      var words := "";
      for i := 0 to |tokens|
        invariant words == JoinTokens(tokens[..i])
      {
        JoinSnoc(tokens[..i], tokens[i]);
        assert tokens[..i + 1] == tokens[..i] + [tokens[i]];
        if i != 0 {
          words := words + " ";
        }
        words := words + tokens[i];
      }
      assert tokens[..|tokens|] == tokens;
      s := indent + words;
      if child != null {
        var inner := child.ToString(depth + 1, v.child.statements, closed);
        s := s + (" {\n" + inner + indent + "}\n");
      } else {
        s := s + ";\n";
      }
    }
  }

  class NginxConfig {
    var statements: seq<NginxConfigStatement>

    constructor ()
      ensures statements == []
    {
      statements := [];
    }

    method ToString(depth: nat, ghost v: Config, ghost closed: set<object>) returns (s: string)
      requires AreStatements(statements, v, closed)
      ensures s == PrintConfig(v, depth)
      decreases v, 0
    {
      s := "";
      for i := 0 to |statements|
        invariant s == PrintConfig(v[..i], depth)
      {
        var t := statements[i].ToString(depth, v[i], closed);
        PrintSnoc(v[..i], v[i], depth);
        assert v[..i + 1] == v[..i] + [v[i]];
        s := s + t;
      }
      assert v[..|v|] == v;
    }
  }

  lemma {:induction false} JoinSnoc(tokens: seq<string>, t: string)
    ensures JoinTokens(tokens + [t]) == if tokens == [] then t else JoinTokens(tokens) + " " + t
  {
    if |tokens| > 1 {
      assert (tokens + [t])[1..] == tokens[1..] + [t];
      JoinSnoc(tokens[1..], t);
    }
  }

  lemma {:induction false} PrintSnoc(c: Config, s: Statement, depth: nat)
    ensures PrintConfig(c + [s], depth) == PrintConfig(c, depth) + PrintStatement(s, depth)
  {
    if c == [] {
      assert PrintConfig([s][1..], depth) == "";
      assert c + [s] == [s];
    } else {
      assert (c + [s])[1..] == c[1..] + [s];
      PrintSnoc(c[1..], s, depth);
    }
  }

  /** `closed` holds the objects of finished statements and blocks; nothing in it refers
      to an object outside it, and the parser never writes to it again.  Within it, the
      object `s` stands for the statement `v`. */
  ghost predicate IsStatement(s: NginxConfigStatement, v: Statement, closed: set<object>)
    reads closed
    decreases v, 1
  {
    && s in closed
    && s.tokens == v.tokens
    && match v.child
       case NoBlock => s.child == null
       case Block(c) => s.child != null && s.child in closed && AreStatements(s.child.statements, c, closed)
  }

  ghost predicate AreStatements(ss: seq<NginxConfigStatement>, vs: Config, closed: set<object>)
    reads closed
    decreases vs, 0
  {
    && |ss| == |vs|
    && forall i :: 0 <= i < |vs| ==> IsStatement(ss[i], vs[i], closed)
  }

  lemma {:induction false} StatementStaysClosed(s: NginxConfigStatement, v: Statement, closed: set<object>, more: set<object>)
    requires IsStatement(s, v, closed) && closed <= more
    ensures IsStatement(s, v, more)
    decreases v, 1
  {
    if v.child.Block? {
      StatementsStayClosed(s.child.statements, v.child.statements, closed, more);
    }
  }

  lemma {:induction false} StatementsStayClosed(ss: seq<NginxConfigStatement>, vs: Config, closed: set<object>, more: set<object>)
    requires AreStatements(ss, vs, closed) && closed <= more
    ensures AreStatements(ss, vs, more)
    decreases vs, 0
  {
    forall i | 0 <= i < |vs|
      ensures IsStatement(ss[i], vs[i], more)
    {
      StatementStaysClosed(ss[i], vs[i], closed, more);
    }
  }

  // ------------------------------------------------------------------ the open path

  /** The block object `c` holds the finished statements `done` and, when `tokens` is not
      empty, one unfinished statement with those tokens whose block is `child`. */
  ghost predicate HoldsOpen(c: NginxConfig, done: Config, tokens: seq<string>, child: NginxConfig?, closed: set<object>, made: set<object>)
    reads c, closed, made
  {
    var ss, n := c.statements, |done|;
    && c !in closed
    && if tokens == [] then AreStatements(ss, done, closed)
       else
         && |ss| == n + 1
         && AreStatements(ss[..n], done, closed)
         && ss[n] !in closed && ss[n] in made
         && ss[n].tokens == tokens
         && ss[n].child == child
  }

  /** The stack is the rightmost path of open blocks: each entry is the block object that
      the last statement of the entry below it points to. */
  ghost predicate OpenPath(stack: seq<NginxConfig>, st: ParserState, closed: set<object>, made: set<object>)
    reads closed, made, stack
  {
    && ValidState(st)
    && |stack| == |st.outer| + 1
    && (forall i, j :: 0 <= i < j < |stack| ==> stack[i] != stack[j])
    && (forall i :: 0 < i < |stack| ==> stack[i] in made)
    && (forall i :: 0 <= i < |st.outer| ==>
          HoldsOpen(stack[i], st.outer[i].done, st.outer[i].tokens, stack[i + 1], closed, made))
    && HoldsOpen(stack[|st.outer|], st.done, st.tokens, null, closed, made)
  }

  /** The innermost block is the outermost one or was made by the parser. */
  lemma InnermostIsMade(stack: seq<NginxConfig>, st: ParserState, closed: set<object>, made: set<object>)
    requires OpenPath(stack, st, closed, made)
    ensures ValidState(st) && stack != [] && (|stack| == 1 || stack[|stack| - 1] in made)
  {
  }

  /** A word: begins a statement in the innermost block unless one is open there, and
      joins its tokens. */
  method AddWord(stack: seq<NginxConfig>, last: TokenType, token: string,
                 ghost st: ParserState, ghost closed: set<object>, ghost made: set<object>)
    returns (ghost made': set<object>)
    requires OpenPath(stack, st, closed, made) && last == st.last
    requires Step(st, Word(token)).Continue?
    modifies stack[|stack| - 1], made
    ensures OpenPath(stack, Step(st, Word(token)).state, closed, made')
    ensures made <= made' && fresh(made' - made)
    ensures forall o: object :: o in made && o in closed ==> unchanged(o)
  {
    var top := stack[|stack| - 1];
    made' := made;
    if last != TypeNormal {
      var s := new NginxConfigStatement();
      made' := made + {s};
      top.statements := top.statements + [s];
    }
    var s := top.statements[|top.statements| - 1];
    s.tokens := s.tokens + [token];
  }

  /** '{': the open statement gets a new block, which becomes the innermost one. */
  method OpenBlock(stack: seq<NginxConfig>,
                   ghost st: ParserState, ghost closed: set<object>, ghost made: set<object>)
    returns (stack': seq<NginxConfig>, ghost made': set<object>)
    requires OpenPath(stack, st, closed, made)
    requires Step(st, Open).Continue?
    modifies made
    ensures OpenPath(stack', Step(st, Open).state, closed, made')
    ensures made <= made' && fresh(made' - made)
    ensures stack <= stack'
    ensures forall o: object :: o in made && o in closed ==> unchanged(o)
  {
    var top := stack[|stack| - 1];
    var block := new NginxConfig();
    made' := made + {block};
    top.statements[|top.statements| - 1].child := block;
    stack' := stack + [block];
  }

  /** '}': the innermost block is finished, and with it the statement that owns it. */
  lemma CloseBlock(stack: seq<NginxConfig>, st: ParserState, closed: set<object>, made: set<object>) returns (closed': set<object>)
    requires OpenPath(stack, st, closed, made)
    requires Step(st, Close).Continue?
    ensures closed <= closed' <= closed + made
    ensures OpenPath(stack[..|stack| - 1], Step(st, Close).state, closed', made)
  {
    var n := |stack| - 2;
    var inner, outer := stack[n + 1], stack[n];
    var s := outer.statements[|st.outer[n].done|];
    closed' := closed + {inner, s};
    forall i | 0 <= i < n
      ensures HoldsOpen(stack[i], st.outer[i].done, st.outer[i].tokens, stack[i + 1], closed', made)
    {
      StaysOpen(stack[i], st.outer[i].done, st.outer[i].tokens, stack[i + 1], closed, closed', made);
    }
    StatementsStayClosed(inner.statements, st.done, closed, closed');
    StatementsStayClosed(outer.statements[..|st.outer[n].done|], st.outer[n].done, closed, closed');
    assert IsStatement(s, Statement(st.outer[n].tokens, Block(st.done)), closed');
    assert outer.statements == outer.statements[..|st.outer[n].done|] + [s];
    assert AreStatements(outer.statements, Step(st, Close).state.done, closed');
  }

  /** Finishing objects that an open block does not use leaves it as it is. */
  lemma StaysOpen(c: NginxConfig, done: Config, tokens: seq<string>, child: NginxConfig?,
                  closed: set<object>, more: set<object>, made: set<object>)
    requires HoldsOpen(c, done, tokens, child, closed, made) && tokens != []
    requires closed <= more && c !in more && c.statements[|done|] !in more
    ensures HoldsOpen(c, done, tokens, child, more, made)
  {
    StatementsStayClosed(c.statements[..|done|], done, closed, more);
  }

  /** ';': the open statement is finished. */
  lemma EndStatement(stack: seq<NginxConfig>, st: ParserState, closed: set<object>, made: set<object>) returns (closed': set<object>)
    requires OpenPath(stack, st, closed, made)
    requires Step(st, Semi).Continue?
    ensures closed <= closed' <= closed + made
    ensures OpenPath(stack, Step(st, Semi).state, closed', made)
  {
    var top := stack[|stack| - 1];
    var s := top.statements[|st.done|];
    closed' := closed + {s};
    forall i | 0 <= i < |st.outer|
      ensures HoldsOpen(stack[i], st.outer[i].done, st.outer[i].tokens, stack[i + 1], closed', made)
    {
      StaysOpen(stack[i], st.outer[i].done, st.outer[i].tokens, stack[i + 1], closed, closed', made);
    }
    StatementsStayClosed(top.statements[..|st.done|], st.done, closed, closed');
    assert IsStatement(s, Statement(st.tokens, NoBlock), closed');
    assert top.statements == top.statements[..|st.done|] + [s];
  }

  // ------------------------------------------------------------------ the parser loop

  function LexemeOf(kind: TokenType, token: string): Lexeme {
    match kind
    case TypeNormal => Word(token)
    case TypeStatementEnd => Semi
    case TypeStartBlock => Open
    case TypeEndBlock => Close
    case TypeEof => End
    case _ => Bad
  }

  /** The outcome `r`, followed by a run over the text `s` if it lets the run go on. */
  function Then(r: Outcome, s: string): Outcome
    requires r.Continue? ==> ValidState(r.state)
  {
    if r.Continue? then Run(r.state, Lex(s)) else r
  }

  /** What one token does to the run over a text. */
  lemma RunToken(st: ParserState, s: string) returns (t: Scanned)
    requires ValidState(st)
    ensures t == NextToken(s) && (|t.rest| < |s| || t.kind == TypeEof)
    ensures Run(st, Lex(s)) == if t.kind == TypeComment then Run(st, Lex(t.rest))
                               else Then(Step(st, LexemeOf(t.kind, t.text)), t.rest)
    ensures t.kind != TypeStart
  {
    t := NextToken(s);
    if t.kind != TypeComment {
      var l := LexemeOf(t.kind, t.text);
      if t.kind == TypeEof || t.kind == TypeError {
        RunOne(st, l);
      } else {
        assert Lex(s) == [l] + Lex(t.rest) && Lex(s)[1..] == Lex(t.rest);
      }
    }
  }

  method AreDigits(token: string) returns (digits: bool)
    ensures digits <==> IsDigits(token)
  {
    for i := 0 to |token|
      invariant IsDigits(token[..i])
    {
      if !('0' <= token[i] <= '9') {
        return false;
      }
    }
    return true;
  }

  /** The listen rule for one word: whether the word may stand, and whether the next one
      must be made of digits. */
  method CheckListen(listening: bool, token: string) returns (ok: bool, listening': bool)
    ensures ok <==> (listening ==> IsDigits(token))
    ensures listening' == AwaitsAfterWord(listening, token)
  {
    ok, listening' := true, listening;
    if !listening && token == "listen" {
      listening' := true;
    } else if listening {
      ok := AreDigits(token);
      listening' := false;
    }
  }

  /** One token other than a comment, an error or the end of the input: whether the parser
      goes on, and with which stack and flag. */
  method HandleToken(stack: seq<NginxConfig>, last: TokenType, listening: bool, kind: TokenType, token: string,
                     ghost st: ParserState, ghost closed: set<object>, ghost made: set<object>)
    returns (go: bool, stack': seq<NginxConfig>, listening': bool, ghost closed': set<object>, ghost made': set<object>)
    requires OpenPath(stack, st, closed, made)
    requires last == st.last && listening == st.listening
    requires kind == TypeNormal || kind == TypeStatementEnd || kind == TypeStartBlock || kind == TypeEndBlock
    modifies stack[|stack| - 1], made
    ensures go <==> Step(st, LexemeOf(kind, token)).Continue?
    ensures go ==> OpenPath(stack', Step(st, LexemeOf(kind, token)).state, closed', made')
    ensures go ==> stack'[0] == stack[0] && listening' == Step(st, LexemeOf(kind, token)).state.listening
    ensures made <= made' && fresh(made' - made) && closed <= closed' <= closed + made
  {
    go, stack', listening', closed', made' := false, stack, listening, closed, made;
    if kind == TypeNormal {
      var ok;
      ok, listening' := CheckListen(listening, token);
      if !ok {
        return;
      }
      made' := AddWord(stack, last, token, st, closed, made);
      go := true;
      return;
    } else if kind == TypeStatementEnd {
      if last != TypeNormal {
        return;
      }
      closed' := EndStatement(stack, st, closed, made);
      go := true;
      return;
    } else if kind == TypeStartBlock {
      if last != TypeNormal {
        return;
      }
      stack', made' := OpenBlock(stack, st, closed, made);
      go := true;
      return;
    } else {
      if last != TypeStatementEnd && last != TypeStartBlock && last != TypeEndBlock {
        return;
      }
      if |stack| == 1 {
        return;
      }
      closed' := CloseBlock(stack, st, closed, made);
      stack' := stack[..|stack| - 1];
      go := true;
      return;
    }
  }

  /** Whether the text may end here; then the outermost block is the whole tree. */
  method AtEnd(stack: seq<NginxConfig>, last: TokenType, ghost st: ParserState, ghost closed: set<object>, ghost made: set<object>)
    returns (ok: bool)
    requires OpenPath(stack, st, closed, made) && last == st.last
    ensures ok <==> Step(st, End).Accept?
    ensures ok ==> AreStatements(stack[0].statements, Step(st, End).config, closed)
  {
    if last != TypeStatementEnd && last != TypeEndBlock && last != TypeStart {
      return false;
    } else if |stack| > 1 {
      return false;
    }
    return true;
  }

  /** One token other than a comment: whether the text is accepted with it, and otherwise
      whether the parser goes on. */
  method TakeToken(stack: seq<NginxConfig>, last: TokenType, listening: bool, kind: TokenType, token: string,
                   ghost st: ParserState, ghost closed: set<object>, ghost made: set<object>)
    returns (ok: bool, go: bool, stack': seq<NginxConfig>, listening': bool, ghost closed': set<object>, ghost made': set<object>)
    requires OpenPath(stack, st, closed, made)
    requires last == st.last && listening == st.listening
    requires kind != TypeComment && kind != TypeStart
    modifies stack[|stack| - 1], made
    ensures ok <==> Step(st, LexemeOf(kind, token)).Accept?
    ensures ok ==> AreStatements(stack[0].statements, Step(st, End).config, closed')
    ensures go <==> Step(st, LexemeOf(kind, token)).Continue?
    ensures go ==> OpenPath(stack', Step(st, LexemeOf(kind, token)).state, closed', made')
    ensures go ==> stack'[0] == stack[0] && listening' == Step(st, LexemeOf(kind, token)).state.listening
    ensures made <= made' && fresh(made' - made) && closed <= closed' <= closed + made
  {
    ok, go, stack', listening', closed', made' := false, false, stack, listening, closed, made;
    if kind == TypeEof {
      ok := AtEnd(stack, last, st, closed, made);
    } else if kind != TypeError {
      go, stack', listening', closed', made' := HandleToken(stack, last, listening, kind, token, st, closed, made);
    }
  }

  /** The parser between two tokens. */
  ghost predicate Reading(input: InputStream, config: NginxConfig, stack: seq<NginxConfig>, last: TokenType, listening: bool,
                          st: ParserState, closed: set<object>, made: set<object>)
    reads input, closed, made, stack
  {
    && input.Valid() && input !in closed && input !in made
    && OpenPath(stack, st, closed, made)
    && last == st.last && listening == st.listening
    && stack[0] == config
  }

  /** One round of the parser's loop: whether it goes on, and otherwise whether the text is accepted. */
  method ReadToken(input: InputStream, config: NginxConfig, stack: seq<NginxConfig>, last: TokenType, listening: bool,
                   ghost st: ParserState, ghost closed: set<object>, ghost made: set<object>)
    returns (ok: bool, go: bool, stack': seq<NginxConfig>, last': TokenType, listening': bool,
             ghost st': ParserState, ghost closed': set<object>, ghost made': set<object>)
    requires Reading(input, config, stack, last, listening, st, closed, made)
    modifies input, config, made
    ensures made <= made' && fresh(made' - made) && closed <= closed' && input.Valid()
    ensures go ==> Reading(input, config, stack', last', listening', st', closed', made')
    ensures go ==> |input.Rest()| < |old(input.Rest())|
    ensures go ==> Run(st', Lex(input.Rest())) == Run(st, Lex(old(input.Rest())))
    ensures !go ==> (ok <==> Run(st, Lex(old(input.Rest()))).Accept?)
    ensures !go && ok ==> AreStatements(config.statements, Run(st, Lex(old(input.Rest()))).config, closed')
  {
    ok, go, stack', last', listening', st', closed', made' := false, true, stack, last, listening, st, closed, made;
    InnermostIsMade(stack, st, closed, made);
    hide OpenPath, AreStatements, Lex, Run, Step;
    ghost var t := RunToken(st, input.Rest());
    var kind, token := ParseToken(input);
    if kind != TypeComment {
      ok, go, stack', listening', closed', made' := TakeToken(stack, last, listening, kind, token, st, closed, made);
      if go {
        last', st' := kind, Step(st, LexemeOf(kind, token)).state;
      }
    }
  }

  /** Reads the whole stream into `config`, which already stands for `v`.  Accepts exactly
      the texts ParseInto accepts; on acceptance the objects reached from `config` stand
      for the tree ParseInto yields. */
  method Parse(input: InputStream, config: NginxConfig, ghost v: Config, ghost closed: set<object>)
    returns (ok: bool, ghost closed': set<object>)
    requires input.Valid() && input !in closed && config !in closed
    requires AreStatements(config.statements, v, closed)
    modifies input, config
    ensures ok <==> ParseInto(v, old(input.Rest())).Some?
    ensures ok ==> AreStatements(config.statements, ParseInto(v, old(input.Rest())).value, closed')
    ensures closed <= closed'
  {
    var stack, last, listening, go := [config], TypeStart, false, true;
    ghost var st, made: set<object> := InitialState(v), {};
    ghost var whole := Run(st, Lex(input.Rest()));
    ok, closed' := false, closed;
    while go
      invariant fresh(made) && closed <= closed' && input.Valid()
      invariant go ==> Reading(input, config, stack, last, listening, st, closed', made)
      invariant go ==> Run(st, Lex(input.Rest())) == whole
      invariant !go ==> (ok <==> whole.Accept?)
      invariant !go && ok ==> AreStatements(config.statements, whole.config, closed')
      decreases go, |input.Rest()|
    {
      ok, go, stack, last, listening, st, closed', made :=
        ReadToken(input, config, stack, last, listening, st, closed', made);
    }
  }
}
