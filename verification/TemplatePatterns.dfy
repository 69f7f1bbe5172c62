/** The recogniser of template value patterns that are one anchored group. */
module TemplatePatterns {
  import opened Wrappers
  import opened Brackets

  /** The two flags of the scan. */
  datatype Lexer = Lexer(isEscaped: bool, isCharacterClass: bool)

  const NEUTRAL := Lexer(false, false)

  function Next(lexer: Lexer, c: char): Lexer
  {
    if lexer.isEscaped then lexer.(isEscaped := false)
    else if c == '\\' then lexer.(isEscaped := true)
    else if c == '[' && !lexer.isCharacterClass then lexer.(isCharacterClass := true)
    else if c == ']' && lexer.isCharacterClass then lexer.(isCharacterClass := false)
    else lexer
  }

  /** A parenthesis counts unless it is escaped or in a character class. */
  function SymbolOf(lexer: Lexer, c: char): Symbol
  {
    if lexer.isEscaped || lexer.isCharacterClass then Other
    else if c == '(' then Opening(')')
    else if c == ')' then Closing(')')
    else Other
  }

  function LexerAfter(text: string): Lexer
  {
    if text == [] then NEUTRAL else Next(LexerAfter(text[..|text| - 1]), text[|text| - 1])
  }

  function Symbols(text: string): (symbols: seq<Symbol>)
    ensures |symbols| == |text|
  {
    if text == [] then []
    else Symbols(text[..|text| - 1]) + [SymbolOf(LexerAfter(text[..|text| - 1]), text[|text| - 1])]
  }

  /** The body, with its escapes and classes complete, nests its parentheses: the final one closes the first group. */
  ghost predicate IsSingleGroup(pattern: string)
  {
    exists body :: pattern == "^(?:" + body + ")$" && LexerAfter(body) == NEUTRAL && IsBalanced(Symbols(body))
  }

  predicate HasFrame(pattern: string)
  {
    |pattern| >= 6 && pattern[..4] == "^(?:" && pattern[|pattern| - 2..] == ")$"
  }

  function Body(pattern: string): string
    requires HasFrame(pattern)
  {
    pattern[4..|pattern| - 2]
  }

  lemma FrameHasBody(pattern: string)
    ensures HasFrame(pattern) ==> pattern == "^(?:" + Body(pattern) + ")$"
    ensures forall body :: pattern == "^(?:" + body + ")$" ==> HasFrame(pattern) && Body(pattern) == body
  {
    forall body | pattern == "^(?:" + body + ")$" ensures HasFrame(pattern) && Body(pattern) == body {
      assert |pattern| == |body| + 6;
    }
  }

  /** The number of groups that are open besides the first, if none has closed it. */
  lemma {:induction false} StackIsParentheses(text: string)
    ensures Run(Symbols(text)).Some? ==>
      forall i :: 0 <= i < |Run(Symbols(text)).value| ==> Run(Symbols(text)).value[i] == ')'
  {
    if text != [] {
      StackIsParentheses(text[..|text| - 1]);
      assert Symbols(text)[..|text| - 1] == Symbols(text[..|text| - 1]);
    }
  }

  lemma SymbolsStep(text: string, length: nat)
    requires length < |text|
    ensures text[..length + 1] == text[..length] + [text[length]]
    ensures LexerAfter(text[..length + 1]) == Next(LexerAfter(text[..length]), text[length])
    ensures Run(Symbols(text[..length + 1])) ==
      Move(Run(Symbols(text[..length])), SymbolOf(LexerAfter(text[..length]), text[length]))
  {
    var longer := text[..length + 1];
    assert longer[..length] == text[..length];
    assert Symbols(longer)[..length] == Symbols(text[..length]);
  }

  /** The body is complete and nests its parentheses, as the machine sees it. */
  predicate ClosesAtEnd(body: string)
  {
    LexerAfter(body) == NEUTRAL && Run(Symbols(body)) == Some([])
  }

  /** The loop: depth starts inside the first group. */
  method ScanGroup(pattern: string, ghost text: string) returns (isSingle: bool)
    requires |pattern| >= 6 && text == pattern[4..|pattern| - 1] && text[|text| - 1] == ')'
    ensures isSingle <==> ClosesAtEnd(text[..|text| - 1])
  {
    hide LexerAfter, Symbols, Run, ClosesAtEnd;
    var depth := 1;
    var isEscaped, isCharacterClass := false, false;
    var index := 4;
    NothingRead(text);
    while index < |pattern| - 1
      invariant 4 <= index <= |pattern| - 1
      invariant Lexer(isEscaped, isCharacterClass) == LexerAfter(text[..index - 4])
      invariant Run(Symbols(text[..index - 4])).Some? && depth == 1 + |Run(Symbols(text[..index - 4])).value|
      decreases |pattern| - index
    {
      var character := pattern[index];
      ghost var read := index - 4;
      assert text[read] == character;
      SymbolsStep(text, read);
      StackIsParentheses(text[..read]);
      if isEscaped {
        isEscaped := false;
      } else if character == '\\' {
        isEscaped := true;
      } else if character == '[' && !isCharacterClass {
        isCharacterClass := true;
      } else if character == ']' && isCharacterClass {
        isCharacterClass := false;
      } else if !isCharacterClass && character == '(' {
        depth := depth + 1;
      } else if !isCharacterClass && character == ')' {
        depth := depth - 1;
        if depth == 0 {
          ClosedEarly(text, read, |text| - 1);
          return index == |pattern| - 2;
        }
      }
      index := index + 1;
    }
    assert text[..index - 4] == text;
    NeverClosed(text);
    return false;
  }

  /** hasSingleAnchoredTemplateGroup */
  method HasSingleAnchoredTemplateGroup(pattern: string) returns (isSingle: bool)
    ensures isSingle <==> IsSingleGroup(pattern)
  {
    hide LexerAfter, Symbols, Run, IsBalanced;
    FrameHasBody(pattern);
    if !(|pattern| >= 4 && pattern[..4] == "^(?:") || !(|pattern| >= 2 && pattern[|pattern| - 2..] == ")$") {
      return false;
    }
    FrameIsLong(pattern);
    ghost var text := pattern[4..|pattern| - 1];
    assert text[..|text| - 1] == Body(pattern);
    assert text[|text| - 1] == pattern[|pattern| - 2..][0];
    AcceptsIffBalanced(Symbols(Body(pattern)));
    isSingle := ScanGroup(pattern, text);
  }

  /** The two ends of the frame cannot overlap. */
  lemma FrameIsLong(pattern: string)
    requires |pattern| >= 4 && pattern[..4] == "^(?:" && pattern[|pattern| - 2..] == ")$"
    ensures HasFrame(pattern)
  {
    var last := pattern[|pattern| - 2..];
    assert last[0] == pattern[|pattern| - 2] && last[1] == pattern[|pattern| - 1];
    assert forall i :: 0 <= i < 4 ==> pattern[i] == pattern[..4][i];
  }

  lemma NothingRead(text: string)
    ensures LexerAfter(text[..0]) == NEUTRAL && Run(Symbols(text[..0])) == Some([])
  {
  }

  /** The first group closes at position read, so the body is balanced only if that is its end. */
  lemma ClosedEarly(text: string, read: nat, length: nat)
    requires read <= length < |text|
    requires LexerAfter(text[..read]) == NEUTRAL && Run(Symbols(text[..read])) == Some([]) && text[read] == ')'
    ensures ClosesAtEnd(text[..length]) <==> read == length
  {
    if read < length {
      SymbolsStep(text, read);
      SymbolsPrefix(text[..length], read + 1);
      assert text[..length][..read + 1] == text[..read + 1];
      MismatchStays(Symbols(text[..length]), read + 1);
    }
  }

  lemma {:induction false} SymbolsPrefix(text: string, length: nat)
    requires length <= |text|
    ensures Symbols(text)[..length] == Symbols(text[..length])
    decreases |text|
  {
    if length < |text| {
      SymbolsPrefix(text[..|text| - 1], length);
      assert text[..|text| - 1][..length] == text[..length];
      assert Symbols(text)[..length] == Symbols(text[..|text| - 1])[..length];
    } else {
      assert text[..length] == text;
    }
  }

  /** The scan read the final parenthesis without closing the first group. */
  lemma NeverClosed(text: string)
    requires |text| > 0 && text[|text| - 1] == ')' && Run(Symbols(text)).Some?
    ensures !ClosesAtEnd(text[..|text| - 1])
  {
    SymbolsStep(text, |text| - 1);
    assert text[..|text|] == text;
  }
}
