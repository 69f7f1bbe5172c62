/** remove_comments: a scanner that drops comments and, on request, the text of string literals. */
module CommentScanner {
  import opened Wrappers

  /** A quoted literal ends with its closing quote, with the newline that cut it off, or with the text. */
  datatype Token =
    | Plain(c: char)
    | Quoted(quote: char, body: string, end: Option<char>)
    | BlockComment(text: string)
    | LineComment(text: string)

  predicate IsQuote(c: char)
  {
    c == '\"' || c == '\'' || c == '`'
  }

  /** A quoted scan goes on at this character. */
  predicate Continues(c: char, quote: char)
  {
    c != quote && (quote == '`' || c != '\n')
  }

  /** Where a quoted scan from index stops; a final backslash overshoots the text by one. */
  function QuoteEnd(text: string, index: nat, quote: char): (end: nat)
    ensures end >= index
    decreases |text| - index
  {
    if index >= |text| || !Continues(text[index], quote) then index
    else QuoteEnd(text, index + if text[index] == '\\' then 2 else 1, quote)
  }

  /** str.find, with the length of the text for -1. */
  function FindBlockEnd(text: string, from: nat): (index: nat)
    requires from <= |text|
    ensures from <= index <= |text|
    ensures index < |text| ==> index + 1 < |text| && text[index] == '*' && text[index + 1] == '/'
    decreases |text| - from
  {
    if from + 1 >= |text| then |text|
    else if text[from] == '*' && text[from + 1] == '/' then from
    else FindBlockEnd(text, from + 1)
  }

  function FindNewline(text: string, from: nat): (index: nat)
    requires from <= |text|
    ensures from <= index <= |text|
    ensures index < |text| ==> text[index] == '\n'
    decreases |text| - from
  {
    if from == |text| || text[from] == '\n' then from else FindNewline(text, from + 1)
  }

  /** The first token of a nonempty text after the character previous, and its length. */
  function FirstToken(previous: Option<char>, text: string): (r: (Token, nat))
    requires text != []
    ensures 1 <= r.1 <= |text|
  {
    var c := text[0];
    if IsQuote(c) then
      var end := QuoteEnd(text, 1, c);
      if end < |text| then (Quoted(c, text[1..end], Some(text[end])), end + 1)
      else (Quoted(c, text[1..], None), |text|)
    else if c == '/' && |text| > 1 && text[1] == '*' then
      var end := FindBlockEnd(text, 2);
      var stop := if end == |text| then end else end + 2;
      (BlockComment(text[..stop]), stop)
    else if c == '/' && |text| > 1 && text[1] == '/' && previous != Some(':') then
      var end := FindNewline(text, 2);
      (LineComment(text[..end]), end)
    else
      (Plain(c), 1)
  }

  /** The tokens of a text that follows the character previous. */
  function Lex(previous: Option<char>, text: string): seq<Token>
    decreases |text|
  {
    if text == [] then []
    else
      var (token, length) := FirstToken(previous, text);
      [token] + Lex(Some(text[length - 1]), text[length..])
  }

  function Ending(end: Option<char>): string
  {
    if end.None? then "" else [end.value]
  }

  function RenderToken(token: Token, keepsStrings: bool): string
  {
    match token
    case Plain(c) => [c]
    case Quoted(quote, body, end) => if keepsStrings then [quote] + body + Ending(end) else [quote] + Ending(end)
    case BlockComment(_) => " "
    case LineComment(_) => ""
  }

  function Render(tokens: seq<Token>, keepsStrings: bool): string
  {
    if tokens == [] then "" else RenderToken(tokens[0], keepsStrings) + Render(tokens[1..], keepsStrings)
  }

  /** The scanner's result. */
  function WithoutComments(text: string, keepsStrings: bool): string
  {
    Render(Lex(None, text), keepsStrings)
  }

  // ----- The index loop -----

  function Before(source: string, index: nat): Option<char>
    requires index <= |source|
  {
    if index == 0 then None else Some(source[index - 1])
  }

  /** The inner loop over a quoted literal. */
  method ScanQuoted(source: string, index: nat) returns (end: nat)
    requires index < |source|
    ensures end == index + QuoteEnd(source[index..], 1, source[index])
  {
    ghost var rest := source[index..];
    end := index + 1;
    while end < |source| && Continues(source[end], source[index])
      invariant index + 1 <= end <= |source| + 1
      invariant QuoteEnd(rest, end - index, source[index]) == QuoteEnd(rest, 1, source[index])
      decreases |source| + 1 - end
    {
      assert rest[end - index] == source[end];
      end := end + if source[end] == '\\' then 2 else 1;
    }
    assert end < |source| ==> rest[end - index] == source[end];
  }

  /** The branch for a quoted literal. */
  method ScanLiteral(source: string, index: nat, shouldKeepStringText: bool) returns (piece: string, next: nat)
    requires index < |source| && IsQuote(source[index])
    ensures var first := FirstToken(Before(source, index), source[index..]);
      piece == RenderToken(first.0, shouldKeepStringText) && next == index + first.1
  {
    hide QuoteEnd;
    var end := ScanQuoted(source, index);
    ghost var rest := source[index..];
    assert rest[0] == source[index];
    ghost var token := FirstToken(Before(source, index), rest).0;
    if end < |source| {
      next := end + 1;
      piece := if shouldKeepStringText then source[index..next] else [source[index]] + source[end..next];
      assert rest[1..end - index] == source[index + 1..end] && rest[end - index] == source[end];
      assert source[index..next] == [source[index]] + token.body + Ending(token.end);
    } else {
      next := |source|;
      piece := if shouldKeepStringText then source[index..] else [source[index]];
      assert source[index..] == [source[index]] + token.body + Ending(token.end);
      assert [source[index]] == [source[index]] + Ending(token.end);
    }
  }

  /** One iteration of the loop: the text it appends and the index it moves to. */
  method ScanToken(source: string, index: nat, shouldKeepStringText: bool) returns (piece: string, next: nat)
    requires index < |source|
    ensures var first := FirstToken(Before(source, index), source[index..]);
      piece == RenderToken(first.0, shouldKeepStringText) && next == index + first.1
  {
    var character := source[index];
    var following := if index + 1 < |source| then [source[index + 1]] else "";
    ghost var rest := source[index..];
    assert rest[0] == character && (following != "" ==> rest[1] == following[0]);
    if IsQuote(character) {
      piece, next := ScanLiteral(source, index, shouldKeepStringText);
    } else if character == '/' && following == "*" {
      var end := FindBlockEnd(source[index..], 2);
      next := if end == |source| - index then |source| else index + end + 2;
      piece := " ";
    } else if character == '/' && following == "/" && (index == 0 || source[index - 1] != ':') {
      var end := FindNewline(source[index..], 2);
      next := index + end;
      piece := "";
    } else {
      next := index + 1;
      piece := [character];
    }
  }

  method RemoveComments(source: string, shouldKeepStringText: bool) returns (kept: string)
    ensures kept == WithoutComments(source, shouldKeepStringText)
  {
    hide FirstToken, RenderToken;
    kept := "";
    var index := 0;
    assert source[0..] == source;
    while index < |source|
      invariant 0 <= index <= |source|
      invariant kept + Render(Lex(Before(source, index), source[index..]), shouldKeepStringText) ==
        WithoutComments(source, shouldKeepStringText)
    {
      RenderStep(Before(source, index), source[index..], shouldKeepStringText);
      var piece, next := ScanToken(source, index, shouldKeepStringText);
      assert source[index..][next - index..] == source[next..];
      assert Before(source, next) == Some(source[index..][next - index - 1]);
      kept := kept + piece;
      index := next;
    }
    assert source[index..] == "";
  }

  lemma RenderStep(previous: Option<char>, text: string, keepsStrings: bool)
    requires text != []
    ensures var first := FirstToken(previous, text);
      Render(Lex(previous, text), keepsStrings) ==
      RenderToken(first.0, keepsStrings) + Render(Lex(Some(text[first.1 - 1]), text[first.1..]), keepsStrings)
  {
    hide FirstToken, RenderToken;
    var first := FirstToken(previous, text);
    assert Lex(previous, text)[1..] == Lex(Some(text[first.1 - 1]), text[first.1..]);
  }

  // ----- Nothing is lost -----

  function SourceOf(token: Token): string
  {
    match token
    case Plain(c) => [c]
    case Quoted(quote, body, end) => [quote] + body + Ending(end)
    case BlockComment(text) => text
    case LineComment(text) => text
  }

  function SourcesOf(tokens: seq<Token>): string
  {
    if tokens == [] then "" else SourceOf(tokens[0]) + SourcesOf(tokens[1..])
  }

  lemma FirstTokenSource(previous: Option<char>, text: string)
    requires text != []
    ensures var first := FirstToken(previous, text); SourceOf(first.0) == text[..first.1]
  {
    hide QuoteEnd, FindBlockEnd, FindNewline;
    var first := FirstToken(previous, text);
    if first.0.Quoted? {
      assert text == [text[0]] + text[1..];
      assert first.0.end.Some? ==> text[..first.1] == [text[0]] + text[1..first.1 - 1] + [text[first.1 - 1]];
    }
  }

  /** The tokens spell the text. */
  lemma {:induction false} LexIsLossless(previous: Option<char>, text: string)
    ensures SourcesOf(Lex(previous, text)) == text
    decreases |text|
  {
    hide FirstToken, SourceOf;
    if text == [] {
    } else {
      var (token, length) := FirstToken(previous, text);
      FirstTokenSource(previous, text);
      LexIsLossless(Some(text[length - 1]), text[length..]);
      assert Lex(previous, text)[1..] == Lex(Some(text[length - 1]), text[length..]);
      assert text == text[..length] + text[length..];
    }
  }

  // ----- Scanning a kept text again -----

  /** What the tokens of the result are: block comments have become spaces and line comments nothing, and a literal
      keeps its text only on request. */
  function Cleaned(tokens: seq<Token>, keepsStrings: bool): seq<Token>
  {
    if tokens == [] then [] else CleanToken(tokens[0], keepsStrings) + Cleaned(tokens[1..], keepsStrings)
  }

  function CleanToken(token: Token, keepsStrings: bool): seq<Token>
  {
    match token
    case Plain(_) => [token]
    case Quoted(quote, body, end) => [Quoted(quote, if keepsStrings then body else "", end)]
    case BlockComment(_) => [Plain(' ')]
    case LineComment(_) => []
  }

  lemma {:induction false} RenderOfConcat(left: seq<Token>, right: seq<Token>, keepsStrings: bool)
    ensures Render(left + right, keepsStrings) == Render(left, keepsStrings) + Render(right, keepsStrings)
  {
    hide RenderToken;
    if left == [] {
      assert left + right == right;
    } else {
      RenderOfConcat(left[1..], right, keepsStrings);
      assert (left + right)[1..] == left[1..] + right;
    }
  }

  /** Rendering cleaned tokens keeps the text of literals exactly when both passes do. */
  lemma {:induction false} CleanedRendersSame(tokens: seq<Token>, keptStrings: bool, keepsStrings: bool)
    ensures Render(Cleaned(tokens, keptStrings), keepsStrings) == Render(tokens, keptStrings && keepsStrings)
  {
    if tokens != [] {
      CleanedRendersSame(tokens[1..], keptStrings, keepsStrings);
      var head := CleanToken(tokens[0], keptStrings);
      RenderOfConcat(head, Cleaned(tokens[1..], keptStrings), keepsStrings);
      CleanTokenRenders(tokens[0], keptStrings, keepsStrings);
    }
  }

  lemma CleanTokenRenders(token: Token, keptStrings: bool, keepsStrings: bool)
    ensures Render(CleanToken(token, keptStrings), keepsStrings) == RenderToken(token, keptStrings && keepsStrings)
  {
    var head := CleanToken(token, keptStrings);
    if head != [] {
      assert head[1..] == [];
      assert RenderToken(head[0], keepsStrings) + "" == RenderToken(head[0], keepsStrings);
      assert token.Quoted? && !keptStrings ==>
        [token.quote] + "" + Ending(token.end) == [token.quote] + Ending(token.end);
    }
  }

  /** A quoted scan that stops inside a text only looks at the text up to there. */
  lemma {:induction false} QuoteEndLocal(text: string, other: string, index: nat, quote: char)
    requires QuoteEnd(text, index, quote) < |text| && QuoteEnd(text, index, quote) < |other|
    requires text[..QuoteEnd(text, index, quote) + 1] == other[..QuoteEnd(text, index, quote) + 1]
    ensures QuoteEnd(other, index, quote) == QuoteEnd(text, index, quote)
    decreases |text| - index
  {
    var end := QuoteEnd(text, index, quote);
    assert text[..end + 1][index] == other[..end + 1][index];
    if Continues(text[index], quote) {
      QuoteEndLocal(text, other, index + if text[index] == '\\' then 2 else 1, quote);
    }
  }

  /** How the kind of the first token shows in the text. */
  lemma FirstTokenShape(previous: Option<char>, text: string)
    requires text != []
    ensures var first := FirstToken(previous, text);
      match first.0
      case Plain(c) => c == text[0] && first.1 == 1
      case Quoted(quote, _, end) => quote == text[0] && IsQuote(quote) && (end.None? ==> first.1 == |text|)
      case BlockComment(_) => text[first.1 - 1] == '/' || first.1 == |text|
      case LineComment(_) => text[first.1..] == [] || text[first.1] == '\n'
    ensures text[0] == '\n' ==> FirstToken(previous, text) == (Plain('\n'), 1)
  {
  }

  /** A kept text starts with the same character as its source, unless a comment gave way to a space or a newline. */
  lemma KeptStart(previous: Option<char>, text: string, keepsStrings: bool)
    requires Render(Lex(previous, text), keepsStrings) != ""
    ensures text != [] && Render(Lex(previous, text), keepsStrings)[0] in {text[0], ' ', '\n'}
  {
    hide FirstToken, Lex;
    assert text != [] by {
      LexEmpty(previous, text);
    }
    var (token, length) := FirstToken(previous, text);
    FirstTokenShape(previous, text);
    RenderStep(previous, text, keepsStrings);
    if token.LineComment? {
      LexEmpty(Some(text[length - 1]), text[length..]);
      if length < |text| {
        FirstTokenShape(Some(text[length - 1]), text[length..]);
        RenderStep(Some(text[length - 1]), text[length..], keepsStrings);
      }
    }
  }

  lemma LexEmpty(previous: Option<char>, text: string)
    ensures text == [] ==> Lex(previous, text) == []
  {
  }

  /** The scans agree on what a double slash after this point means. */
  predicate SameContext(previous: Option<char>, keptPrevious: Option<char>, text: string)
  {
    (previous == Some(':') <==> keptPrevious == Some(':')) || text == [] || text[0] == '\n'
  }

  lemma LexStep(previous: Option<char>, token: Token, source: string, rest: string)
    requires source != [] && FirstToken(previous, source + rest) == (token, |source|)
    ensures Lex(previous, source + rest) == [token] + Lex(Some(source[|source| - 1]), rest)
  {
    hide FirstToken;
    assert (source + rest)[|source|..] == rest;
  }

  /** A quoted literal is scanned the same way before any continuation of a kept text. */
  lemma QuotedScansSame(previous: Option<char>, keptPrevious: Option<char>, text: string, rest: string)
    requires text != [] && IsQuote(text[0])
    requires FirstToken(previous, text).1 == |text| && FirstToken(previous, text).0.end.None? ==> rest == ""
    ensures FirstToken(keptPrevious, text[..FirstToken(previous, text).1] + rest) == FirstToken(previous, text)
  {
    var (token, length) := FirstToken(previous, text);
    var end := QuoteEnd(text, 1, text[0]);
    var kept := text[..length] + rest;
    if end < |text| {
      assert kept[..end + 1] == text[..end + 1];
      QuoteEndLocal(text, kept, 1, text[0]);
      assert kept[1..end] == text[1..end];
    } else {
      assert kept == text;
    }
  }

  lemma {:induction false} QuoteEndStops(text: string, index: nat, quote: char)
    ensures QuoteEnd(text, index, quote) < |text| ==> !Continues(text[QuoteEnd(text, index, quote)], quote)
    decreases |text| - index
  {
    if index < |text| && Continues(text[index], quote) {
      QuoteEndStops(text, index + if text[index] == '\\' then 2 else 1, quote);
    }
  }

  /** Without its body, a literal still ends where it did. */
  lemma EmptiedScansSame(previous: Option<char>, keptPrevious: Option<char>, text: string, rest: string)
    requires text != [] && IsQuote(text[0])
    requires FirstToken(previous, text).0.end.None? ==> rest == ""
    ensures var end := FirstToken(previous, text).0.end;
      FirstToken(keptPrevious, [text[0]] + Ending(end) + rest) == (Quoted(text[0], "", end), 1 + |Ending(end)|)
  {
    QuoteEndStops(text, 1, text[0]);
    var end := FirstToken(previous, text).0.end;
    var kept := [text[0]] + Ending(end) + rest;
    assert kept[1..1] == "";
    if end.Some? {
      assert kept[1] == end.value;
    }
  }

  /** An ordinary character stays one: what follows it in the kept text opens no comment. */
  lemma PlainScansSame(previous: Option<char>, keptPrevious: Option<char>, text: string, keepsStrings: bool)
    requires text != [] && FirstToken(previous, text).0.Plain? && SameContext(previous, keptPrevious, text)
    ensures FirstToken(keptPrevious, [text[0]] + Render(Lex(Some(text[0]), text[1..]), keepsStrings)) ==
      (Plain(text[0]), 1)
  {
    hide Lex, Render, QuoteEnd;
    var tail := Render(Lex(Some(text[0]), text[1..]), keepsStrings);
    if tail != "" {
      KeptStart(Some(text[0]), text[1..], keepsStrings);
      assert ([text[0]] + tail)[1] == tail[0];
    }
  }

  /** The kept form of the first token scans as the cleaned token, in front of the kept form of the rest. */
  lemma FirstTokenOfKept(previous: Option<char>, keptPrevious: Option<char>, text: string, keepsStrings: bool)
    requires text != [] && SameContext(previous, keptPrevious, text)
    ensures var (token, length) := FirstToken(previous, text);
      var tail := Render(Lex(Some(text[length - 1]), text[length..]), keepsStrings);
      var kept, cleaned := RenderToken(token, keepsStrings), CleanToken(token, keepsStrings);
      cleaned != [] ==> kept != "" && FirstToken(keptPrevious, kept + tail) == (cleaned[0], |kept|)
  {
    hide FirstToken, Lex, Render;
    var (token, length) := FirstToken(previous, text);
    var tail := Render(Lex(Some(text[length - 1]), text[length..]), keepsStrings);
    FirstTokenShape(previous, text);
    match token {
      case Quoted(_, _, end) =>
        FirstTokenSource(previous, text);
        LexEmpty(Some(text[length - 1]), text[length..]);
        RenderEmpty(keepsStrings);
        if keepsStrings {
          QuotedScansSame(previous, keptPrevious, text, tail);
        } else {
          EmptiedScansSame(previous, keptPrevious, text, tail);
        }
      case BlockComment(_) =>
        SpaceIsPlain(keptPrevious, tail);
      case LineComment(_) =>
      case Plain(c) =>
        PlainScansSame(previous, keptPrevious, text, keepsStrings);
    }
  }

  /** Where the kept scan continues, it still agrees on double slashes. */
  lemma ContextAfterToken(previous: Option<char>, keptPrevious: Option<char>, text: string, keepsStrings: bool)
    requires text != []
    ensures var (token, length) := FirstToken(previous, text);
      var kept := RenderToken(token, keepsStrings);
      SameContext(Some(text[length - 1]), if kept == "" then keptPrevious else Some(kept[|kept| - 1]), text[length..])
  {
    hide FirstToken;
    FirstTokenShape(previous, text);
    FirstTokenSource(previous, text);
  }

  /** The tokens of the result are the cleaned tokens of its source, in either mode. */
  lemma {:induction false} LexOfRemoved(
    previous: Option<char>, keptPrevious: Option<char>, text: string, keepsStrings: bool)
    requires SameContext(previous, keptPrevious, text)
    ensures Lex(keptPrevious, Render(Lex(previous, text), keepsStrings)) == Cleaned(Lex(previous, text), keepsStrings)
    decreases |text|
  {
    hide FirstToken, RenderToken, SameContext;
    if text != [] {
      var (token, length) := FirstToken(previous, text);
      var last, rest := text[length - 1], text[length..];
      var tokens, cleaned := Lex(Some(last), rest), CleanToken(token, keepsStrings);
      var kept, tail := RenderToken(token, keepsStrings), Render(tokens, keepsStrings);
      RenderStep(previous, text, keepsStrings);
      assert Lex(previous, text) == [token] + tokens;
      assert ([token] + tokens)[1..] == tokens;
      assert Cleaned([token] + tokens, keepsStrings) == cleaned + Cleaned(tokens, keepsStrings);
      hide Lex, Render, Cleaned;
      ContextAfterToken(previous, keptPrevious, text, keepsStrings);
      LexOfRemoved(Some(last), if kept == "" then keptPrevious else Some(kept[|kept| - 1]), rest, keepsStrings);
      FirstTokenOfKept(previous, keptPrevious, text, keepsStrings);
      if cleaned == [] {
        LineRendersEmpty(token, keepsStrings);
        assert kept + tail == tail;
      } else {
        LexStep(keptPrevious, cleaned[0], kept, tail);
      }
    }
  }

  lemma LineRendersEmpty(token: Token, keepsStrings: bool)
    requires CleanToken(token, keepsStrings) == []
    ensures RenderToken(token, keepsStrings) == ""
  {
  }

  lemma RenderEmpty(keepsStrings: bool)
    ensures Render([], keepsStrings) == ""
  {
  }

  lemma SpaceIsPlain(previous: Option<char>, tail: string)
    ensures FirstToken(previous, " " + tail) == (Plain(' '), 1)
  {
  }

  /** Two passes are one pass that keeps the text of literals exactly when both do: keeping is idempotent, stripping is
      idempotent, and stripping fuses with keeping on either side. */
  lemma RemovalIsStable(text: string, keptStrings: bool, keepsStrings: bool)
    ensures WithoutComments(WithoutComments(text, keptStrings), keepsStrings) ==
      WithoutComments(text, keptStrings && keepsStrings)
  {
    LexOfRemoved(None, None, text, keptStrings);
    CleanedRendersSame(Lex(None, text), keptStrings, keepsStrings);
  }

  lemma {:induction false} CleanedShape(tokens: seq<Token>, keepsStrings: bool)
    ensures forall token :: token in Cleaned(tokens, keepsStrings) ==>
      token.Plain? || (token.Quoted? && (!keepsStrings ==> token.body == ""))
  {
    if tokens != [] {
      CleanedShape(tokens[1..], keepsStrings);
    }
  }

  /** The result holds no comment, and no text of a literal unless it is kept. */
  lemma ResultHasNoComments(text: string, keepsStrings: bool)
    ensures forall token :: token in Lex(None, WithoutComments(text, keepsStrings)) ==>
      token.Plain? || (token.Quoted? && (!keepsStrings ==> token.body == ""))
  {
    LexOfRemoved(None, None, text, keepsStrings);
    CleanedShape(Lex(None, text), keepsStrings);
  }

  function Literals(tokens: seq<Token>): seq<Token>
  {
    if tokens == [] then [] else (if tokens[0].Quoted? then [tokens[0]] else []) + Literals(tokens[1..])
  }

  lemma LiteralsConcat(token: Token, rest: seq<Token>)
    ensures Literals([token] + rest) == (if token.Quoted? then [token] else []) + Literals(rest)
  {
    assert ([token] + rest)[1..] == rest;
  }

  lemma {:induction false} CleanedKeepsLiterals(tokens: seq<Token>)
    ensures Literals(Cleaned(tokens, true)) == Literals(tokens)
  {
    if tokens != [] {
      CleanedKeepsLiterals(tokens[1..]);
      var head := CleanToken(tokens[0], true);
      if head == [] {
        assert [] + Cleaned(tokens[1..], true) == Cleaned(tokens[1..], true);
        assert [] + Literals(tokens[1..]) == Literals(tokens[1..]);
      } else {
        LiteralsConcat(head[0], Cleaned(tokens[1..], true));
      }
    }
  }

  /** The keeping mode leaves every literal of the source in the result, in order and unchanged. */
  lemma KeptTextKeepsLiterals(text: string)
    ensures Literals(Lex(None, WithoutComments(text, true))) == Literals(Lex(None, text))
  {
    LexOfRemoved(None, None, text, true);
    CleanedKeepsLiterals(Lex(None, text));
  }

  lemma {:induction false} UncommentedRendersSource(tokens: seq<Token>)
    requires forall token :: token in tokens ==> token.Plain? || token.Quoted?
    ensures Render(tokens, true) == SourcesOf(tokens)
  {
    if tokens != [] {
      assert tokens[0] in tokens;
      UncommentedRendersSource(tokens[1..]);
    }
  }

  /** The keeping mode leaves a text unchanged exactly when it holds no comment. */
  lemma UnchangedIffUncommented(text: string)
    ensures WithoutComments(text, true) == text <==>
      forall token :: token in Lex(None, text) ==> token.Plain? || token.Quoted?
  {
    hide Lex, Render, SourcesOf;
    ResultHasNoComments(text, true);
    if forall token :: token in Lex(None, text) ==> token.Plain? || token.Quoted? {
      UncommentedRendersSource(Lex(None, text));
      LexIsLossless(None, text);
    }
  }
}
