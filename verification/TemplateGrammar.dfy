/** The anchored group of a template pattern, said without a scanner: escapes, character classes and parentheses are
    tokens, and the parentheses of the body nest. */
module TemplateGrammar {
  import opened Wrappers
  import opened Texts
  import opened Brackets
  import opened TemplatePatterns

  datatype Token = Char(c: char) | Escape(c: char) | Class(body: string) | Open | Close

  function SourceOf(token: Token): string
  {
    match token
    case Char(c) => [c]
    case Escape(c) => ['\\', c]
    case Class(body) => ['['] + body + [']']
    case Open => "("
    case Close => ")"
  }

  /** A class ends at its first closing bracket that no backslash escapes; an opening bracket in it means itself. */
  predicate IsClassBody(body: string)
  {
    || body == []
    || (body[0] == '\\' && |body| >= 2 && IsClassBody(body[2..]))
    || (body[0] != '\\' && body[0] != ']' && IsClassBody(body[1..]))
  }

  predicate IsToken(token: Token)
  {
    match token
    case Char(c) => c !in "\\[()"
    case Class(body) => IsClassBody(body)
    case _ => true
  }

  function Spelled(tokens: seq<Token>): string
  {
    if tokens == [] then "" else SourceOf(tokens[0]) + Spelled(tokens[1..])
  }

  function Nesting(token: Token): Symbol
  {
    match token
    case Open => Opening(')')
    case Close => Closing(')')
    case _ => Other
  }

  function Nestings(tokens: seq<Token>): (symbols: seq<Symbol>)
    ensures |symbols| == |tokens|
  {
    seq(|tokens|, i requires 0 <= i < |tokens| => Nesting(tokens[i]))
  }

  /** The tokens spell the body, and their parentheses nest. */
  ghost predicate IsGroupBody(tokens: seq<Token>, body: string)
  {
    (forall token :: token in tokens ==> IsToken(token)) && Spelled(tokens) == body && IsBalanced(Nestings(tokens))
  }

  ghost predicate IsAnchoredGroup(pattern: string)
  {
    exists body, tokens :: pattern == "^(?:" + body + ")$" && IsGroupBody(tokens, body)
  }

  // ----- The scan, one character at a time from the front -----

  datatype State = State(lexer: Lexer, stack: Option<seq<char>>)

  const IN_CLASS := Lexer(false, true)

  function Feed(state: State, text: string): State
    decreases |text|
  {
    if text == [] then state
    else Feed(State(Next(state.lexer, text[0]), Move(state.stack, SymbolOf(state.lexer, text[0]))), text[1..])
  }

  lemma {:induction false} FeedConcat(state: State, left: string, right: string)
    ensures Feed(state, left + right) == Feed(Feed(state, left), right)
    decreases |left|
  {
    if left == [] {
      assert left + right == right;
    } else {
      assert (left + right)[1..] == left[1..] + right;
      FeedConcat(State(Next(state.lexer, left[0]), Move(state.stack, SymbolOf(state.lexer, left[0]))), left[1..],
        right);
    }
  }

  lemma FeedOne(state: State, c: char)
    ensures Feed(state, [c]) == State(Next(state.lexer, c), Move(state.stack, SymbolOf(state.lexer, c)))
  {
    var one := [c];
    assert one[1..] == [];
  }

  lemma {:induction false} FeedIsScan(text: string)
    ensures Feed(State(NEUTRAL, Some([])), text) == State(LexerAfter(text), Run(Symbols(text)))
  {
    if text != [] {
      var initial, last := text[..|text| - 1], text[|text| - 1];
      FeedIsScan(initial);
      assert text == initial + [last];
      FeedConcat(State(NEUTRAL, Some([])), initial, [last]);
      FeedOne(Feed(State(NEUTRAL, Some([])), initial), last);
      SymbolsStep(text, |text| - 1);
      assert text[..|text|] == text;
    }
  }

  // ----- Tokens leave the scan neutral, and move the stack by their parenthesis -----

  lemma {:induction false} ClassBodyStays(body: string, stack: Option<seq<char>>)
    requires IsClassBody(body)
    ensures Feed(State(IN_CLASS, stack), body) == State(IN_CLASS, stack)
  {
    if body != [] {
      var step := if body[0] == '\\' then 2 else 1;
      ClassBodyStays(body[step..], stack);
      if step == 2 {
        assert body[1..][1..] == body[2..];
      }
    }
  }

  lemma TokenFeeds(token: Token, stack: Option<seq<char>>)
    requires IsToken(token)
    ensures Feed(State(NEUTRAL, stack), SourceOf(token)) == State(NEUTRAL, Move(stack, Nesting(token)))
  {
    match token {
      case Char(c) =>
        FeedOne(State(NEUTRAL, stack), c);
      case Escape(c) =>
        assert ['\\', c] == ['\\'] + [c];
        FeedConcat(State(NEUTRAL, stack), ['\\'], [c]);
        FeedOne(State(NEUTRAL, stack), '\\');
        FeedOne(State(Lexer(true, false), stack), c);
      case Class(body) =>
        FeedConcat(State(NEUTRAL, stack), ['['] + body, [']']);
        FeedConcat(State(NEUTRAL, stack), ['['], body);
        FeedOne(State(NEUTRAL, stack), '[');
        ClassBodyStays(body, stack);
        FeedOne(State(IN_CLASS, stack), ']');
      case Open =>
        FeedOne(State(NEUTRAL, stack), '(');
      case Close =>
        FeedOne(State(NEUTRAL, stack), ')');
    }
  }

  lemma {:induction false} TokensFeed(tokens: seq<Token>, stack: Option<seq<char>>)
    requires forall token :: token in tokens ==> IsToken(token)
    ensures Feed(State(NEUTRAL, stack), Spelled(tokens)) == State(NEUTRAL, RunFrom(stack, Nestings(tokens)))
    decreases |tokens|
  {
    hide Feed, SourceOf, Nesting, Move, IsToken;
    if tokens == [] {
      FeedNothing(State(NEUTRAL, stack));
      RunNothing(stack);
      assert Nestings(tokens) == [];
    } else {
      var first, rest := tokens[0], tokens[1..];
      assert first in tokens;
      TokenFeeds(first, stack);
      FeedConcat(State(NEUTRAL, stack), SourceOf(first), Spelled(rest));
      TokensFeed(rest, Move(stack, Nesting(first)));
      assert Nestings(tokens) == [Nesting(first)] + Nestings(rest);
      RunFromConcat(stack, [Nesting(first)], Nestings(rest));
      RunFromOne(stack, Nesting(first));
    }
  }

  lemma FeedNothing(state: State)
    ensures Feed(state, "") == state
  {
  }

  lemma RunNothing(stack: Option<seq<char>>)
    ensures RunFrom(stack, []) == stack
  {
  }

  // ----- A text that leaves the scan neutral has tokens -----

  /** The rest of a class ends it. */
  lemma {:induction false} SplitClass(text: string, stack: Option<seq<char>>) returns (body: string, rest: string)
    requires Feed(State(IN_CLASS, stack), text).lexer == NEUTRAL
    ensures text == body + [']'] + rest && IsClassBody(body) && Feed(State(NEUTRAL, stack), rest).lexer == NEUTRAL
    decreases |text|
  {
    if text[0] == ']' {
      body, rest := "", text[1..];
    } else if text[0] == '\\' {
      assert |text| >= 2 && text[1..][1..] == text[2..];
      var inner, remaining := SplitClass(text[2..], stack);
      body, rest := text[..2] + inner, remaining;
      assert body[2..] == inner;
    } else {
      var inner, remaining := SplitClass(text[1..], stack);
      body, rest := text[..1] + inner, remaining;
      assert body[1..] == inner;
    }
  }

  lemma {:induction false} Tokenise(text: string, stack: Option<seq<char>>) returns (tokens: seq<Token>)
    requires Feed(State(NEUTRAL, stack), text).lexer == NEUTRAL
    ensures (forall token :: token in tokens ==> IsToken(token)) && Spelled(tokens) == text
    decreases |text|
  {
    if text == [] {
      tokens := [];
    } else {
      var first, rest := FirstToken(text, stack);
      hide Feed, IsToken, SourceOf;
      var others := Tokenise(rest, Move(stack, Nesting(first)));
      tokens := [first] + others;
      assert tokens[1..] == others;
    }
  }

  lemma FirstToken(text: string, stack: Option<seq<char>>) returns (token: Token, rest: string)
    requires text != [] && Feed(State(NEUTRAL, stack), text).lexer == NEUTRAL
    ensures IsToken(token) && SourceOf(token) + rest == text && |rest| < |text|
    ensures Feed(State(NEUTRAL, Move(stack, Nesting(token))), rest).lexer == NEUTRAL
  {
    rest := text[1..];
    if text[0] == '\\' {
      assert |text| >= 2 && text[1..][1..] == text[2..];
      token, rest := Escape(text[1]), text[2..];
    } else if text[0] == '[' {
      var body, remaining := SplitClass(text[1..], stack);
      token, rest := Class(body), remaining;
      assert text == ['['] + text[1..];
    } else if text[0] == '(' {
      token := Open;
    } else if text[0] == ')' {
      token := Close;
    } else {
      token := Char(text[0]);
    }
  }

  // ----- The recogniser decides the grammar -----

  lemma BodyIff(body: string)
    ensures (LexerAfter(body) == NEUTRAL && IsBalanced(Symbols(body))) <==> exists tokens :: IsGroupBody(tokens, body)
  {
    var start := Some([]);
    hide Feed, IsToken, IsBalanced, LexerAfter, Symbols, Run, RunFrom;
    FeedIsScan(body);
    AcceptsIffBalanced(Symbols(body));
    if LexerAfter(body) == NEUTRAL && IsBalanced(Symbols(body)) {
      var tokens := Tokenise(body, start);
      TokensFeed(tokens, start);
      RunIsRunFrom(Nestings(tokens));
      AcceptsIffBalanced(Nestings(tokens));
      assert IsGroupBody(tokens, body);
    }
    if tokens :| IsGroupBody(tokens, body) {
      TokensFeed(tokens, start);
      RunIsRunFrom(Nestings(tokens));
      AcceptsIffBalanced(Nestings(tokens));
    }
  }

  /** What the scan accepts is exactly an anchored group of the grammar. */
  lemma SingleGroupIff(pattern: string)
    ensures IsSingleGroup(pattern) <==> IsAnchoredGroup(pattern)
  {
    hide LexerAfter, Symbols, IsBalanced, IsGroupBody;
    forall body ensures (LexerAfter(body) == NEUTRAL && IsBalanced(Symbols(body))) <==>
      exists tokens :: IsGroupBody(tokens, body)
    {
      BodyIff(body);
    }
    if IsSingleGroup(pattern) {
      var body :| pattern == "^(?:" + body + ")$" && LexerAfter(body) == NEUTRAL && IsBalanced(Symbols(body));
      BodyIff(body);
      var tokens :| IsGroupBody(tokens, body);
      assert IsAnchoredGroup(pattern);
    }
    if IsAnchoredGroup(pattern) {
      var body, tokens :| pattern == "^(?:" + body + ")$" && IsGroupBody(tokens, body);
      BodyIff(body);
    }
  }
}
