/** How a configuration is laid out when it is printed: one statement or brace to a line, two blanks in
    front for every block around it. */
module ConfigLayout {
  import opened Sequences
  import opened Text
  import opened ConfigTree
  import opened ConfigLexer
  import opened ConfigGrammar

  function LineLength(s: string): (n: nat)
    ensures n <= |s|
  {
    if s == "" || s[0] == '\n' then 0 else 1 + LineLength(s[1..])
  }

  /** The lines of a text, from inside `depth` blocks on: each has two blanks for every block around it,
      and then a closing brace, or a statement that ends in a semicolon or an opening brace. */
  predicate LaidOut(s: string, depth: nat)
    decreases |s|
  {
    var n := LineLength(s);
    if n == |s| then s == "" && depth == 0
    else
      var b := LeadingBlanks(s[..n]);
      var content, rest := s[b..n], s[n + 1..];
      if content == "}" then depth > 0 && b == 2 * (depth - 1) && LaidOut(rest, depth - 1)
      else
        && content != "" && b == 2 * depth
        && if content[|content| - 1] == '{' then LaidOut(rest, depth + 1)
           else content[|content| - 1] == ';' && LaidOut(rest, depth)
  }

  /** A token on one line. */
  predicate OneLineToken(t: string) {
    IsPrintable(t) && forall i :: 0 <= i < |t| ==> t[i] != '\n'
  }

  predicate Content(s: string) {
    s != "" && s[0] != ' ' && forall i :: 0 <= i < |s| ==> s[i] != '\n'
  }

  lemma {:induction false} LineEnds(a: string, u: string)
    requires forall i :: 0 <= i < |a| ==> a[i] != '\n'
    ensures LineLength(a + ("\n" + u)) == |a|
  {
    var s := a + ("\n" + u);
    if a != "" {
      assert s[0] == a[0] && s[1..] == a[1..] + ("\n" + u);
      LineEnds(a[1..], u);
    }
  }

  lemma {:induction false} BlanksEnd(depth: nat, content: string)
    requires Content(content)
    ensures |Indent(depth)| == 2 * depth && forall i :: 0 <= i < |Indent(depth)| ==> Indent(depth)[i] == ' '
    ensures LeadingBlanks(Indent(depth) + content) == 2 * depth
  {
    IndentBlanks(depth);
    CountBlanks(Indent(depth), content);
  }

  lemma {:induction false} IndentBlanks(depth: nat)
    ensures |Indent(depth)| == 2 * depth && forall i :: 0 <= i < |Indent(depth)| ==> Indent(depth)[i] == ' '
  {
    if depth > 0 {
      IndentBlanks(depth - 1);
    }
  }

  lemma {:induction false} CountBlanks(w: string, content: string)
    requires content != "" && content[0] != ' ' && forall i :: 0 <= i < |w| ==> w[i] == ' '
    ensures LeadingBlanks(w + content) == |w|
  {
    if w == "" {
      assert w + content == content;
    } else {
      assert (w + content)[0] == ' ' && (w + content)[1..] == w[1..] + content;
      CountBlanks(w[1..], content);
    }
  }

  /** One line, taken apart. */
  lemma LineParts(depth: nat, content: string, u: string)
    requires Content(content)
    ensures var s := Indent(depth) + content + ("\n" + u); var n := 2 * depth + |content|;
            && LineLength(s) == n < |s| && LeadingBlanks(s[..n]) == 2 * depth
            && s[2 * depth..n] == content && s[n + 1..] == u
  {
    var line := Indent(depth) + content;
    var s := line + ("\n" + u);
    BlanksEnd(depth, content);
    assert forall i :: 0 <= i < |line| ==> line[i] != '\n';
    LineEnds(line, u);
    hide Indent, LineLength, LeadingBlanks;
    assert s[..|line|] == line;
  }

  lemma StatementLine(depth: nat, content: string, u: string)
    requires Content(content) && content != "}"
    requires if content[|content| - 1] == '{' then LaidOut(u, depth + 1) else content[|content| - 1] == ';' && LaidOut(u, depth)
    ensures LaidOut(Indent(depth) + content + ("\n" + u), depth)
  {
    LineParts(depth, content, u);
    var s := Indent(depth) + content + ("\n" + u);
    hide Indent, LineLength, LeadingBlanks, Content;
    LineIsLaidOut(s, depth, content, u);
  }

  lemma LineIsLaidOut(s: string, depth: nat, content: string, u: string)
    requires content != "" && content != "}"
    requires if content[|content| - 1] == '{' then LaidOut(u, depth + 1) else content[|content| - 1] == ';' && LaidOut(u, depth)
    requires var n := 2 * depth + |content|;
             && LineLength(s) == n < |s| && LeadingBlanks(s[..n]) == 2 * depth
             && s[2 * depth..n] == content && s[n + 1..] == u
    ensures LaidOut(s, depth)
  {
    hide LineLength, LeadingBlanks;
  }

  lemma ClosingLine(depth: nat, u: string)
    requires LaidOut(u, depth)
    ensures LaidOut(Indent(depth) + "}" + ("\n" + u), depth + 1)
  {
    LineParts(depth, "}", u);
    hide Indent, LineLength, LeadingBlanks;
  }

  lemma {:induction false} JoinedIsContent(tokens: seq<string>)
    requires tokens != [] && forall i :: 0 <= i < |tokens| ==> OneLineToken(tokens[i])
    ensures Content(JoinTokens(tokens))
    decreases |tokens|
  {
    var t := tokens[0];
    assert OneLineToken(t) && t[0] != ' ';
    if |tokens| > 1 {
      assert forall i :: 0 <= i < |tokens| - 1 ==> OneLineToken(tokens[1..][i]);
      JoinedIsContent(tokens[1..]);
    }
  }

  /** The lines of printed statements, in front of other lines. */
  lemma {:induction false} ConfigLines(c: Config, depth: nat, u: string)
    requires NonEmpty(c) && AllTokens(c, OneLineToken) && LaidOut(u, depth)
    ensures LaidOut(PrintConfig(c, depth) + u, depth)
    decreases c, 0
  {
    if c == [] {
      assert "" + u == u;
    } else {
      ConfigLines(c[1..], depth, u);
      StatementLines(c[0], depth, PrintConfig(c[1..], depth) + u);
      hide LaidOut;
      Regroup(PrintStatement(c[0], depth), PrintConfig(c[1..], depth), u, "");
    }
  }

  lemma {:induction false} StatementLines(s: Statement, depth: nat, u: string)
    requires NonEmptyStatement(s) && AllStatementTokens(s, OneLineToken) && LaidOut(u, depth)
    ensures LaidOut(PrintStatement(s, depth) + u, depth)
    decreases s, 1
  {
    var words := JoinTokens(s.tokens);
    JoinedIsContent(s.tokens);
    match s.child
    case NoBlock =>
      var line := words + ";";
      hide LaidOut, JoinTokens, Indent;
      WordsRegroup(Indent(depth), words, u);
      StatementLine(depth, line, u);
    case Block(c) =>
      var line, closing := words + " {", Indent(depth) + "}" + ("\n" + u);
      ClosingLine(depth, u);
      ConfigLines(c, depth + 1, closing);
      hide LaidOut, JoinTokens, Indent, NonEmpty, AllTokens;
      BlockRegroup(Indent(depth), words, PrintConfig(c, depth + 1), u);
      StatementLine(depth, line, PrintConfig(c, depth + 1) + closing);
  }

  lemma WordsRegroup(indent: string, words: string, u: string)
    requires Content(words)
    ensures indent + words + ";\n" + u == indent + (words + ";") + ("\n" + u)
    ensures var line := words + ";"; line[|line| - 1] == ';' && Content(line) && line != "}"
  {
  }

  lemma BlockRegroup(indent: string, words: string, body: string, u: string)
    requires Content(words)
    ensures var line := words + " {"; line[|line| - 1] == '{' && Content(line) && line != "}"
    ensures indent + words + (" {\n" + body + indent + "}\n") + u ==
            indent + (words + " {") + ("\n" + (body + (indent + "}" + ("\n" + u))))
  {
  }

  /** A printed configuration whose tokens stand on one line each. */
  lemma PrintedLines(c: Config)
    requires NonEmpty(c) && AllTokens(c, OneLineToken)
    ensures LaidOut(Print(c), 0)
  {
    ConfigLines(c, 0, "");
    assert Print(c) + "" == Print(c);
  }
}
