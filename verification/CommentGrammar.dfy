/** What counts as a comment, a literal and an ordinary character, said without a scanner: the scanner's tokens are
    the only reading of a text that these rules allow. */
module CommentGrammar {
  import opened Wrappers
  import opened CommentScanner

  /** Escaped pairs, and single characters that neither escape nor stop the literal. */
  predicate IsBody(quote: char, body: string)
  {
    || body == []
    || (body[0] != '\\' && Continues(body[0], quote) && IsBody(quote, body[1..]))
    || (body[0] == '\\' && |body| >= 2 && IsBody(quote, body[2..]))
  }

  /** The body of a literal that the text cuts off, which may end in a lone backslash. */
  predicate IsOpenBody(quote: char, body: string)
  {
    || body == []
    || (body[0] != '\\' && Continues(body[0], quote) && IsOpenBody(quote, body[1..]))
    || (body[0] == '\\' && (|body| == 1 || IsOpenBody(quote, body[2..])))
  }

  predicate ClosesBlockAt(text: string, i: nat)
  {
    i + 1 < |text| && text[i] == '*' && text[i + 1] == '/'
  }

  predicate IsBlock(text: string, isLast: bool)
  {
    && |text| >= 2 && text[0] == '/' && text[1] == '*'
    && (forall i :: 2 <= i < |text| - 2 ==> !ClosesBlockAt(text, i))
    && if |text| >= 4 && ClosesBlockAt(text, |text| - 2) then true else isLast
  }

  predicate IsLine(previous: Option<char>, text: string, rest: string)
  {
    && |text| >= 2 && text[0] == '/' && text[1] == '/' && previous != Some(':')
    && '\n' !in text
    && (rest == [] || rest[0] == '\n')
  }

  /** The token may stand after the character previous and before the text rest. */
  predicate IsToken(previous: Option<char>, token: Token, rest: string)
  {
    match token
    case Plain(c) =>
      !IsQuote(c) && (c == '/' && rest != [] ==> rest[0] != '*' && (rest[0] == '/' ==> previous == Some(':')))
    case Quoted(quote, body, end) =>
      IsQuote(quote) &&
      (if end.None? then rest == [] && IsOpenBody(quote, body) else !Continues(end.value, quote) && IsBody(quote, body))
    case BlockComment(text) => IsBlock(text, rest == [])
    case LineComment(text) => IsLine(previous, text, rest)
  }

  /** A reading of a text that follows the character previous. */
  predicate IsReading(previous: Option<char>, tokens: seq<Token>)
    decreases |tokens|
  {
    tokens == [] ||
    (IsToken(previous, tokens[0], SourcesOf(tokens[1..])) && IsReading(LastOf(SourceOf(tokens[0])), tokens[1..]))
  }

  function LastOf(text: string): Option<char>
  {
    if text == [] then None else Some(text[|text| - 1])
  }

  // ----- Literals -----

  /** The scan passes over a body. */
  lemma {:induction false} ScanPassesBody(text: string, index: nat, quote: char, body: string)
    requires IsQuote(quote) && IsBody(quote, body) && index + |body| <= |text| && text[index..index + |body|] == body
    ensures QuoteEnd(text, index, quote) == QuoteEnd(text, index + |body|, quote)
    decreases |body|
  {
    if body != [] {
      assert text[index] == body[0];
      var step := if body[0] == '\\' then 2 else 1;
      assert text[index + step..index + |body|] == body[step..];
      ScanPassesBody(text, index + step, quote, body[step..]);
    }
  }

  lemma {:induction false} ScanPassesOpenBody(text: string, index: nat, quote: char)
    requires IsQuote(quote) && index <= |text| && IsOpenBody(quote, text[index..])
    ensures QuoteEnd(text, index, quote) >= |text|
    decreases |text| - index
  {
    if index < |text| {
      assert text[index..][0] == text[index];
      var step := if text[index] == '\\' then 2 else 1;
      if index + step <= |text| {
        assert text[index..][step..] == text[index + step..];
        ScanPassesOpenBody(text, index + step, quote);
      }
    }
  }

  /** What the scan passed over is a body. */
  lemma {:induction false} ScannedIsBody(text: string, index: nat, quote: char)
    requires IsQuote(quote) && index <= |text|
    ensures var end := QuoteEnd(text, index, quote);
      if end < |text| then !Continues(text[end], quote) && IsBody(quote, text[index..end])
        else IsOpenBody(quote, text[index..])
    decreases |text| - index
  {
    if index < |text| && Continues(text[index], quote) {
      var end := QuoteEnd(text, index, quote);
      var step := if text[index] == '\\' then 2 else 1;
      if index + step <= |text| {
        ScannedIsBody(text, index + step, quote);
        if end < |text| {
          assert text[index..end][step..] == text[index + step..end];
        } else {
          assert text[index..][step..] == text[index + step..];
        }
      }
    }
  }

  // ----- Comments -----

  lemma {:induction false} BlockEndIsFirst(text: string, from: nat)
    requires from <= |text|
    ensures forall i :: from <= i < FindBlockEnd(text, from) ==> !ClosesBlockAt(text, i)
    decreases |text| - from
  {
    if from + 1 < |text| && !ClosesBlockAt(text, from) {
      BlockEndIsFirst(text, from + 1);
    }
  }

  lemma {:induction false} NewlineIsFirst(text: string, from: nat)
    requires from <= |text|
    ensures forall i :: from <= i < FindNewline(text, from) ==> text[i] != '\n'
    decreases |text| - from
  {
    if from < |text| && text[from] != '\n' {
      NewlineIsFirst(text, from + 1);
    }
  }

  // ----- One token -----

  /** The scanner's first token obeys the rules. */
  lemma FirstTokenIsToken(previous: Option<char>, text: string)
    requires text != []
    ensures var (token, length) := FirstToken(previous, text); IsToken(previous, token, text[length..])
  {
    hide QuoteEnd, FindBlockEnd, FindNewline, IsBody, IsOpenBody;
    var (token, length) := FirstToken(previous, text);
    match token {
      case Plain(_) =>
      case Quoted(quote, _, _) =>
        ScannedIsBody(text, 1, quote);
      case BlockComment(comment) =>
        BlockEndIsFirst(text, 2);
        BlockIsFirst(text, comment);
      case LineComment(comment) =>
        NewlineIsFirst(text, 2);
    }
  }

  lemma ClosesInPrefix(text: string, length: nat, i: nat)
    requires length <= |text|
    ensures ClosesBlockAt(text[..length], i) <==> i + 1 < length && ClosesBlockAt(text, i)
  {
  }

  lemma BlockIsFirst(text: string, comment: string)
    requires |text| >= 2 && text[0] == '/' && text[1] == '*'
    requires var end := FindBlockEnd(text, 2); comment == text[..if end == |text| then end else end + 2]
    requires forall i :: 2 <= i < FindBlockEnd(text, 2) ==> !ClosesBlockAt(text, i)
    ensures IsBlock(comment, |comment| == |text|)
  {
    var end := FindBlockEnd(text, 2);
    var length := if end == |text| then end else end + 2;
    assert end < |text| ==> ClosesBlockAt(text, end);
    hide FindBlockEnd, ClosesBlockAt;
    assert comment[0] == text[0] && comment[1] == text[1];
    if end < |text| {
      ClosesInPrefix(text, length, end);
    }
    forall i: nat | 2 <= i < |comment| - 2 ensures !ClosesBlockAt(comment, i) {
      ClosesInPrefix(text, length, i);
    }
  }

  lemma {:induction false} FindsBlockEnd(text: string, from: nat, end: nat)
    requires from <= end <= |text| && (forall i :: from <= i < end ==> !ClosesBlockAt(text, i))
    requires end == |text| || ClosesBlockAt(text, end)
    ensures FindBlockEnd(text, from) == end
    decreases |text| - from
  {
    if from < end {
      assert !ClosesBlockAt(text, from);
      if from + 1 < |text| {
        FindsBlockEnd(text, from + 1, end);
      }
    }
  }

  lemma {:induction false} FindsNewline(text: string, from: nat, end: nat)
    requires from <= end <= |text| && (forall i :: from <= i < end ==> text[i] != '\n')
    requires end == |text| || text[end] == '\n'
    ensures FindNewline(text, from) == end
    decreases |text| - from
  {
    if from < end {
      FindsNewline(text, from + 1, end);
    }
  }

  lemma QuotedIsFirst(previous: Option<char>, quote: char, body: string, end: Option<char>, rest: string)
    requires IsToken(previous, Quoted(quote, body, end), rest)
    ensures FirstToken(previous, [quote] + body + Ending(end) + rest) ==
      (Quoted(quote, body, end), 1 + |body| + |Ending(end)|)
  {
    hide IsBody, IsOpenBody;
    var text := [quote] + body + Ending(end) + rest;
    assert text[1..1 + |body|] == body;
    if end.None? {
      assert text[1..] == body;
      ScanPassesOpenBody(text, 1, quote);
    } else {
      ScanPassesBody(text, 1, quote, body);
      assert text[1 + |body|] == end.value;
    }
  }

  lemma BlockTokenIsFirst(previous: Option<char>, comment: string, rest: string)
    requires IsBlock(comment, rest == [])
    ensures FirstToken(previous, comment + rest) == (BlockComment(comment), |comment|)
  {
    hide FindBlockEnd;
    var text := comment + rest;
    var isClosed := |comment| >= 4 && ClosesBlockAt(comment, |comment| - 2);
    var end := if isClosed then |comment| - 2 else |comment|;
    assert text[..|comment|] == comment;
    forall i | 2 <= i < end ensures !ClosesBlockAt(text, i) {
      assert i < |comment| - 2 ==> !ClosesBlockAt(comment, i);
    }
    FindsBlockEnd(text, 2, end);
  }

  lemma LineTokenIsFirst(previous: Option<char>, comment: string, rest: string)
    requires IsLine(previous, comment, rest)
    ensures FirstToken(previous, comment + rest) == (LineComment(comment), |comment|)
  {
    hide FindNewline;
    var text := comment + rest;
    assert text[..|comment|] == comment;
    assert forall i :: 2 <= i < |comment| ==> text[i] == comment[i];
    FindsNewline(text, 2, |comment|);
  }

  /** A token that obeys the rules is the one the scanner finds. */
  lemma TokenIsFirst(previous: Option<char>, token: Token, rest: string)
    requires IsToken(previous, token, rest)
    ensures SourceOf(token) != [] && FirstToken(previous, SourceOf(token) + rest) == (token, |SourceOf(token)|)
  {
    match token {
      case Plain(c) =>
        var text := [c] + rest;
        assert rest != [] ==> text[1] == rest[0];
      case Quoted(quote, body, end) =>
        QuotedIsFirst(previous, quote, body, end, rest);
      case BlockComment(comment) =>
        BlockTokenIsFirst(previous, comment, rest);
      case LineComment(comment) =>
        LineTokenIsFirst(previous, comment, rest);
    }
  }

  // ----- Whole texts -----

  lemma {:induction false} LexIsReading(previous: Option<char>, text: string)
    ensures IsReading(previous, Lex(previous, text)) && SourcesOf(Lex(previous, text)) == text
    decreases |text|
  {
    hide FirstToken, IsToken, SourceOf;
    LexIsLossless(previous, text);
    if text != [] {
      var (token, length) := FirstToken(previous, text);
      var rest := text[length..];
      FirstTokenIsToken(previous, text);
      FirstTokenSource(previous, text);
      LexIsReading(Some(text[length - 1]), rest);
      assert Lex(previous, text)[1..] == Lex(Some(text[length - 1]), rest);
    }
  }

  lemma {:induction false} ReadingIsLex(previous: Option<char>, tokens: seq<Token>)
    requires IsReading(previous, tokens)
    ensures Lex(previous, SourcesOf(tokens)) == tokens
    decreases |tokens|
  {
    hide FirstToken, IsToken, SourceOf;
    if tokens != [] {
      var source, rest := SourceOf(tokens[0]), SourcesOf(tokens[1..]);
      TokenIsFirst(previous, tokens[0], rest);
      ReadingIsLex(LastOf(source), tokens[1..]);
      LexStep(previous, tokens[0], source, rest);
      assert tokens == [tokens[0]] + tokens[1..];
    }
  }

  /** The rules allow one reading of every text, and the scanner finds it. */
  lemma LexIsTheOnlyReading(text: string, tokens: seq<Token>)
    ensures (IsReading(None, tokens) && SourcesOf(tokens) == text) <==> tokens == Lex(None, text)
  {
    LexIsReading(None, text);
    if IsReading(None, tokens) && SourcesOf(tokens) == text {
      ReadingIsLex(None, tokens);
    }
  }
}
