/** The bracket splitter that finds the top-level arguments of a call. */
module CallArguments {
  import opened Wrappers
  import opened Brackets

  datatype Span = Span(start: nat, end: nat)

  function SymbolOf(c: char): Symbol
  {
    match c
    case '(' => Opening(')')
    case '[' => Opening(']')
    case '{' => Opening('}')
    case ')' => Closing(')')
    case ']' => Closing(']')
    case '}' => Closing('}')
    case _ => Other
  }

  function Symbols(text: string): (symbols: seq<Symbol>)
    ensures |symbols| == |text|
    ensures forall i :: 0 <= i < |text| ==> symbols[i] == SymbolOf(text[i])
  {
    seq(|text|, i requires 0 <= i < |text| => SymbolOf(text[i]))
  }

  // ----- What the spans are -----

  /** Every bracket between start and position has its partner there. */
  ghost predicate IsTopLevel(code: string, start: nat, position: nat)
  {
    start <= position < |code| && IsBalanced(Symbols(code[start..position]))
  }

  /** The call whose argument text begins at start closes at end. */
  ghost predicate ClosesAt(code: string, start: nat, end: nat)
  {
    IsTopLevel(code, start, end) && code[end] == ')'
  }

  /** The call that opens at openParen closes at end. */
  ghost predicate IsCallText(code: string, openParen: nat, end: nat)
  {
    ClosesAt(code, openParen + 1, end)
  }

  ghost predicate IsSeparator(code: string, start: nat, position: nat)
  {
    IsTopLevel(code, start, position) && code[position] == ','
  }

  /** The pieces of code[start..end] between its separators, in order: a separator ends every piece but the last. */
  ghost predicate IsSplit(code: string, start: nat, end: nat, pieces: seq<Span>)
  {
    && pieces != []
    && pieces[0].start == start
    && pieces[|pieces| - 1].end == end
    && (forall i :: 0 <= i < |pieces| ==> pieces[i].start <= pieces[i].end <= |code|)
    && (forall i :: 0 <= i < |pieces| - 1 ==> IsSeparator(code, start, pieces[i].end))
    && (forall i :: 0 < i < |pieces| ==> pieces[i].start == pieces[i - 1].end + 1)
    && (forall i, k :: 0 <= i < |pieces| && pieces[i].start <= k < pieces[i].end ==> !IsSeparator(code, start, k))
  }

  /** The characters that str.strip removes. */
  predicate IsSpace(c: char)
  {
    var code := c as int;
    || 0x09 <= code <= 0x0d || 0x1c <= code <= 0x20 || code == 0x85 || code == 0xa0 || code == 0x1680
    || 0x2000 <= code <= 0x200a || code == 0x2028 || code == 0x2029
    || code == 0x202f || code == 0x205f || code == 0x3000
  }

  predicate IsBlank(text: string)
  {
    forall i :: 0 <= i < |text| ==> IsSpace(text[i])
  }

  /** A blank last piece is a trailing comma or an empty argument list, not an argument. */
  function WithoutBlankLast(code: string, pieces: seq<Span>): seq<Span>
    requires pieces != []
    requires var last := pieces[|pieces| - 1]; last.start <= last.end <= |code|
  {
    var last := pieces[|pieces| - 1];
    if IsBlank(code[last.start..last.end]) then pieces[..|pieces| - 1] else pieces
  }

  // ----- The method -----

  /** find_call_argument_spans; taking the last character of the stack is the pop, so the stack is proved to
      hold one. */
  method FindCallArgumentSpans(code: string, openParen: nat) returns (result: Option<seq<Span>>)
    ensures result.Some? <==> exists end: nat :: IsCallText(code, openParen, end)
    ensures forall end: nat :: IsCallText(code, openParen, end) ==>
      exists pieces :: IsSplit(code, openParen + 1, end, pieces) && result == Some(WithoutBlankLast(code, pieces))
  {
    hide ClosesAt, IsSplit, IsSeparator, Run, Symbols;
    var start := openParen + 1;
    var closingStack: seq<char> := [')'];
    var spans: seq<Span> := [];
    var argumentStart: nat := start;
    if start > |code| {
      ClosesInside(code, start);
      return None;
    }
    var index := start;
    StartsEmpty(code, start);
    while index < |code|
      invariant start <= index <= |code|
      invariant Reads(code, start, index, closingStack)
      invariant IsSplit(code, start, index, spans + [Span(argumentStart, index)])
    {
      var character := code[index];
      ReadStep(code, start, index, closingStack);
      SplitStep(code, start, index, spans, argumentStart);
      SeparatorIffAlone(code, start, index, closingStack);
      if character in "([{" {
        closingStack := closingStack + [ClosingOf(character)];
      } else if character in ")]}" {
        var expected := closingStack[|closingStack| - 1];
        ReadClosing(code, start, index, closingStack);
        closingStack := closingStack[..|closingStack| - 1];
        if character != expected {
          return None;
        }
        if closingStack == [] {
          SplitIsKept(code, start, index, spans, argumentStart);
          assert IsCallText(code, openParen, index);
          if !IsBlank(code[argumentStart..index]) {
            spans := spans + [Span(argumentStart, index)];
          }
          return Some(spans);
        }
      } else if character == ',' && |closingStack| == 1 {
        spans := spans + [Span(argumentStart, index)];
        argumentStart := index + 1;
      }
      index := index + 1;
    }
    NeverClosed(code, start, closingStack);
    return None;
  }

  function ClosingOf(c: char): (closing: char)
    requires c in "([{"
    ensures SymbolOf(c) == Opening(closing)
  {
    if c == '(' then ')' else if c == '[' then ']' else '}'
  }

  // ----- The stack -----

  /** The stack is the call's own parenthesis below what the machine holds. */
  predicate Reads(code: string, start: nat, index: nat, closingStack: seq<char>)
    requires start <= index <= |code|
  {
    closingStack != [] && closingStack[0] == ')' && Run(Symbols(code[start..index])) == Some(closingStack[1..])
  }

  lemma StartsEmpty(code: string, start: nat)
    requires start <= |code|
    ensures Reads(code, start, start, [')'])
    ensures IsSplit(code, start, start, [] + [Span(start, start)])
  {
    assert code[start..start] == [];
    assert Symbols(code[start..start]) == [];
    var parenthesis := [')'];
    assert parenthesis[1..] == [];
    assert [] + [Span(start, start)] == [Span(start, start)];
  }

  lemma RunStep(code: string, start: nat, index: nat)
    requires start <= index < |code|
    ensures Run(Symbols(code[start..index + 1])) == Move(Run(Symbols(code[start..index])), SymbolOf(code[index]))
  {
    var longer := Symbols(code[start..index + 1]);
    assert longer[..|longer| - 1] == Symbols(code[start..index]);
  }

  lemma ReadStep(code: string, start: nat, index: nat, closingStack: seq<char>)
    requires start <= index < |code| && Reads(code, start, index, closingStack)
    ensures SymbolOf(code[index]).Opening? ==>
      Reads(code, start, index + 1, closingStack + [SymbolOf(code[index]).closing])
    ensures SymbolOf(code[index]).Other? ==> Reads(code, start, index + 1, closingStack)
    ensures SymbolOf(code[index]).Closing? && |closingStack| > 1 && closingStack[|closingStack| - 1] == code[index] ==>
      Reads(code, start, index + 1, closingStack[..|closingStack| - 1])
  {
    hide Run, Symbols;
    RunStep(code, start, index);
    var inner := closingStack[1..];
    if SymbolOf(code[index]).Opening? {
      assert (closingStack + [SymbolOf(code[index]).closing])[1..] == inner + [SymbolOf(code[index]).closing];
    }
    if |closingStack| > 1 {
      assert closingStack[..|closingStack| - 1][1..] == inner[..|inner| - 1];
    }
  }

  lemma MachineDecides(code: string, start: nat, position: nat)
    requires start <= position < |code|
    ensures IsTopLevel(code, start, position) <==> Run(Symbols(code[start..position])) == Some([])
  {
    hide Run, Symbols, IsBalanced;
    AcceptsIffBalanced(Symbols(code[start..position]));
  }

  /** A mismatch hides everything after it, and the call's own parenthesis is the first closing that empties
      the stack. */
  lemma ClosedBefore(code: string, start: nat, end: nat, index: nat)
    requires end < index <= |code| && ClosesAt(code, start, end)
    ensures Run(Symbols(code[start..index])).None?
  {
    hide Run, Symbols;
    MachineDecides(code, start, end);
    RunStep(code, start, end);
    NoneStays(code, start, end + 1, index);
  }

  lemma NoneStays(code: string, start: nat, mid: nat, index: nat)
    requires start <= mid <= index <= |code| && Run(Symbols(code[start..mid])).None?
    ensures Run(Symbols(code[start..index])).None?
  {
    hide Run;
    assert Symbols(code[start..index])[..mid - start] == Symbols(code[start..mid]);
    MismatchStays(Symbols(code[start..index]), mid - start);
  }

  lemma ClosesInside(code: string, start: nat)
    ensures forall end: nat :: ClosesAt(code, start, end) ==> start <= end < |code|
  {
  }

  /** Reading a closing bracket decides the call, unless it closes an inner bracket. */
  lemma ReadClosing(code: string, start: nat, index: nat, closingStack: seq<char>)
    requires start <= index < |code| && Reads(code, start, index, closingStack) && SymbolOf(code[index]).Closing?
    ensures closingStack[|closingStack| - 1] != code[index] ==> forall end: nat :: !ClosesAt(code, start, end)
    ensures closingStack == [code[index]] ==> forall end: nat :: ClosesAt(code, start, end) <==> end == index
  {
    hide Run, Symbols, IsTopLevel;
    ClosesInside(code, start);
    RunStep(code, start, index);
    MachineDecides(code, start, index);
    forall end: nat | ClosesAt(code, start, end) && end != index
      ensures closingStack[|closingStack| - 1] == code[index] && closingStack != [code[index]]
    {
      if end < index {
        ClosedBefore(code, start, end, index);
      } else {
        MachineDecides(code, start, end);
        if Run(Symbols(code[start..index + 1])).None? {
          NoneStays(code, start, index + 1, end);
        }
      }
    }
  }

  lemma NeverClosed(code: string, start: nat, closingStack: seq<char>)
    requires start <= |code| && Reads(code, start, |code|, closingStack)
    ensures forall end: nat :: !ClosesAt(code, start, end)
  {
    hide Run, Symbols;
    forall end: nat | ClosesAt(code, start, end) ensures false {
      ClosedBefore(code, start, end, |code|);
    }
  }

  // ----- The pieces -----

  lemma SeparatorIffAlone(code: string, start: nat, index: nat, closingStack: seq<char>)
    requires start <= index < |code| && Reads(code, start, index, closingStack)
    ensures IsSeparator(code, start, index) <==> code[index] == ',' && |closingStack| == 1
  {
    hide Run, Symbols;
    MachineDecides(code, start, index);
    assert closingStack[1..] == [] <==> |closingStack| == 1;
  }

  /** A character that is no separator joins the last piece. */
  lemma SplitGrows(code: string, start: nat, index: nat, spans: seq<Span>, argumentStart: nat)
    requires start <= index < |code| && IsSplit(code, start, index, spans + [Span(argumentStart, index)])
    requires !IsSeparator(code, start, index)
    ensures IsSplit(code, start, index + 1, spans + [Span(argumentStart, index + 1)])
  {
    hide IsSeparator;
    var pieces, longer, n := spans + [Span(argumentStart, index)], spans + [Span(argumentStart, index + 1)], |spans|;
    assert pieces[n] == Span(argumentStart, index) && longer[n] == Span(argumentStart, index + 1);
    assert forall i :: 0 <= i < n ==> longer[i] == pieces[i];
    assert longer[0].start == pieces[0].start;
  }

  /** A separator ends the last piece and begins another. */
  lemma SplitCuts(code: string, start: nat, index: nat, pieces: seq<Span>)
    requires start <= index < |code| && IsSplit(code, start, index, pieces) && IsSeparator(code, start, index)
    ensures IsSplit(code, start, index + 1, pieces + [Span(index + 1, index + 1)])
  {
    hide IsSeparator;
    var longer, n := pieces + [Span(index + 1, index + 1)], |pieces|;
    assert forall i :: 0 <= i < n ==> longer[i] == pieces[i];
    assert longer[n] == Span(index + 1, index + 1) && |longer| == n + 1;
    forall i | 0 <= i < |longer| - 1 ensures IsSeparator(code, start, longer[i].end) {
      assert i == n - 1 ==> longer[i].end == index;
    }
    forall i | 0 < i < |longer| ensures longer[i].start == longer[i - 1].end + 1 {
      assert i == n ==> longer[i - 1] == pieces[n - 1];
    }
    forall i, k | 0 <= i < |longer| && longer[i].start <= k < longer[i].end ensures !IsSeparator(code, start, k) {
      assert i < n && longer[i] == pieces[i];
    }
  }

  lemma SplitStep(code: string, start: nat, index: nat, spans: seq<Span>, argumentStart: nat)
    requires start <= index < |code| && IsSplit(code, start, index, spans + [Span(argumentStart, index)])
    ensures !IsSeparator(code, start, index) ==>
      IsSplit(code, start, index + 1, spans + [Span(argumentStart, index + 1)])
    ensures IsSeparator(code, start, index) ==>
      IsSplit(code, start, index + 1, (spans + [Span(argumentStart, index)]) + [Span(index + 1, index + 1)])
  {
    hide IsSeparator, IsSplit;
    if IsSeparator(code, start, index) {
      SplitCuts(code, start, index, spans + [Span(argumentStart, index)]);
    } else {
      SplitGrows(code, start, index, spans, argumentStart);
    }
  }

  lemma SplitIsKept(code: string, start: nat, index: nat, spans: seq<Span>, argumentStart: nat)
    requires IsSplit(code, start, index, spans + [Span(argumentStart, index)])
    ensures argumentStart <= index <= |code|
    ensures WithoutBlankLast(code, spans + [Span(argumentStart, index)])
      == if IsBlank(code[argumentStart..index]) then spans else spans + [Span(argumentStart, index)]
  {
    var pieces := spans + [Span(argumentStart, index)];
    assert pieces[|spans|] == Span(argumentStart, index);
    assert pieces[..|spans|] == spans;
  }

  // ----- What a split means -----

  /** The pieces joined by commas. */
  function Joined(code: string, pieces: seq<Span>): string
    requires forall i :: 0 <= i < |pieces| ==> pieces[i].start <= pieces[i].end <= |code|
  {
    if pieces == [] then ""
    else if |pieces| == 1 then code[pieces[0].start..pieces[0].end]
    else Joined(code, pieces[..|pieces| - 1]) + "," + code[pieces[|pieces| - 1].start..pieces[|pieces| - 1].end]
  }

  lemma SplitPrefix(code: string, start: nat, end: nat, pieces: seq<Span>, length: nat)
    requires IsSplit(code, start, end, pieces) && 0 < length <= |pieces|
    ensures IsSplit(code, start, pieces[length - 1].end, pieces[..length])
  {
    hide IsSeparator;
    var front := pieces[..length];
    assert forall i :: 0 <= i < length ==> front[i] == pieces[i];
  }

  /** Joining the pieces rebuilds the text. */
  lemma {:induction false} JoinRebuilds(code: string, start: nat, end: nat, pieces: seq<Span>)
    requires IsSplit(code, start, end, pieces)
    ensures start <= end <= |code| && Joined(code, pieces) == code[start..end]
    decreases |pieces|
  {
    hide IsTopLevel;
    if |pieces| > 1 {
      var cut, last := pieces[|pieces| - 2].end, pieces[|pieces| - 1];
      SplitPrefix(code, start, end, pieces, |pieces| - 1);
      JoinRebuilds(code, start, cut, pieces[..|pieces| - 1]);
      assert last.start == cut + 1 && IsSeparator(code, start, cut);
      CutAt(code, start, cut, end);
    }
  }

  /** The spans that the method returns, joined, rebuild the argument text up to a blank final piece. */
  lemma SpansRebuild(code: string, start: nat, end: nat, pieces: seq<Span>)
    requires IsSplit(code, start, end, pieces)
    ensures start <= end <= |code|
    ensures var spans, last := WithoutBlankLast(code, pieces), pieces[|pieces| - 1];
      || (spans == pieces && !IsBlank(code[last.start..last.end]) && code[start..end] == Joined(code, spans))
      || (spans == [] && IsBlank(code[start..end]))
      || (spans != [] && IsBlank(code[last.start..last.end]) &&
        code[start..end] == Joined(code, spans) + "," + code[last.start..last.end])
  {
    hide IsSeparator, IsBlank;
    JoinRebuilds(code, start, end, pieces);
  }

  lemma CutAt(code: string, start: nat, cut: nat, end: nat)
    requires start <= cut < end <= |code| && code[cut] == ','
    ensures code[start..cut] + "," + code[cut + 1..end] == code[start..end]
  {
  }

  /** The pieces are in order and apart. */
  lemma {:induction false} PiecesAreOrdered(code: string, start: nat, end: nat, pieces: seq<Span>, i: nat, j: nat)
    requires IsSplit(code, start, end, pieces) && i < j < |pieces|
    ensures pieces[i].end < pieces[j].start
    decreases j
  {
    if i + 1 < j {
      PiecesAreOrdered(code, start, end, pieces, i, j - 1);
    }
  }

  /** The text has one split, so the separators alone decide the spans. */
  lemma {:induction false} SplitIsUnique(code: string, start: nat, end: nat, left: seq<Span>, right: seq<Span>)
    requires IsSplit(code, start, end, left) && IsSplit(code, start, end, right)
    ensures left == right
  {
    hide IsSeparator;
    var shared := if |left| <= |right| then |left| else |right|;
    SharedPieces(code, start, end, left, right, shared);
    if |left| < |right| {
      PastTheEnd(code, start, end, left, right);
    } else if |right| < |left| {
      PastTheEnd(code, start, end, right, left);
    }
    assert left == left[..|left|] && right == right[..|right|];
  }

  /** A shared piece that is last on one side is last on the other. */
  lemma PastTheEnd(code: string, start: nat, end: nat, short: seq<Span>, long: seq<Span>)
    requires IsSplit(code, start, end, short) && IsSplit(code, start, end, long) && |short| < |long|
    ensures short[|short| - 1] != long[|short| - 1]
  {
    hide IsSeparator;
    PiecesAreOrdered(code, start, end, long, |short| - 1, |long| - 1);
  }

  lemma {:induction false} SharedPieces(code: string, start: nat, end: nat, left: seq<Span>, right: seq<Span>,
      count: nat)
    requires IsSplit(code, start, end, left) && IsSplit(code, start, end, right)
    requires count <= |left| && count <= |right|
    ensures left[..count] == right[..count]
  {
    hide IsSeparator;
    if count > 0 {
      var k := count - 1;
      SharedPieces(code, start, end, left, right, k);
      assert k > 0 ==> left[..k][k - 1] == left[k - 1] && right[..k][k - 1] == right[k - 1];
      EndsWithin(code, start, end, left, k);
      EndsWithin(code, start, end, right, k);
      assert left[k] == right[k];
      assert left[..count] == left[..k] + [left[k]] && right[..count] == right[..k] + [right[k]];
    }
  }

  /** A piece ends at a separator or at the end. */
  lemma EndsWithin(code: string, start: nat, end: nat, pieces: seq<Span>, k: nat)
    requires IsSplit(code, start, end, pieces) && k < |pieces|
    ensures pieces[k].end == end || (pieces[k].end < end && IsSeparator(code, start, pieces[k].end))
  {
    hide IsSeparator;
    if k < |pieces| - 1 {
      PiecesAreOrdered(code, start, end, pieces, k, |pieces| - 1);
    }
  }
}
