/** Bracket matching: a stack machine accepts exactly the texts that a nesting grammar spells. */
module Brackets {
  import opened Wrappers
  import opened Texts

  /** An opening bracket names the closing bracket that it expects. */
  datatype Symbol = Opening(closing: char) | Closing(closing: char) | Other

  // ----- The stack machine -----

  /** None is a closing bracket that does not match. */
  function Move(stack: Option<seq<char>>, symbol: Symbol): Option<seq<char>>
  {
    if stack.None? then None
    else match symbol
      case Opening(closing) => Some(stack.value + [closing])
      case Closing(closing) =>
        if stack.value != [] && stack.value[|stack.value| - 1] == closing then Some(stack.value[..|stack.value| - 1])
          else None
      case Other => stack
  }

  function Run(symbols: seq<Symbol>): Option<seq<char>>
  {
    if symbols == [] then Some([]) else Move(Run(symbols[..|symbols| - 1]), symbols[|symbols| - 1])
  }

  /** A mismatch is final. */
  lemma {:induction false} MismatchStays(symbols: seq<Symbol>, length: nat)
    requires length <= |symbols| && Run(symbols[..length]).None?
    ensures Run(symbols).None?
    decreases |symbols|
  {
    if length == |symbols| {
      assert symbols[..length] == symbols;
    } else {
      assert symbols[..|symbols| - 1][..length] == symbols[..length];
      MismatchStays(symbols[..|symbols| - 1], length);
    }
  }

  // ----- The grammar -----

  datatype Item = Plain | Group(closing: char, items: seq<Item>)

  function Spell(items: seq<Item>): seq<Symbol>
  {
    if items == [] then [] else Spell(items[..|items| - 1]) + SpellItem(items[|items| - 1])
  }

  function SpellItem(item: Item): seq<Symbol>
  {
    match item
    case Plain => [Other]
    case Group(closing, items) => [Opening(closing)] + Spell(items) + [Closing(closing)]
  }

  ghost predicate IsBalanced(symbols: seq<Symbol>)
  {
    exists items :: Spell(items) == symbols
  }

  // ----- Soundness: a spelled text leaves any stack as it was -----

  function RunFrom(stack: Option<seq<char>>, symbols: seq<Symbol>): Option<seq<char>>
  {
    if symbols == [] then stack else Move(RunFrom(stack, symbols[..|symbols| - 1]), symbols[|symbols| - 1])
  }

  lemma {:induction false} RunFromConcat(stack: Option<seq<char>>, left: seq<Symbol>, right: seq<Symbol>)
    ensures RunFrom(stack, left + right) == RunFrom(RunFrom(stack, left), right)
    decreases |right|
  {
    if right == [] {
      assert left + right == left;
    } else {
      RunFromConcat(stack, left, right[..|right| - 1]);
      assert (left + right)[..|left + right| - 1] == left + right[..|right| - 1];
    }
  }

  lemma RunFromOne(stack: Option<seq<char>>, symbol: Symbol)
    ensures RunFrom(stack, [symbol]) == Move(stack, symbol)
  {
    var one := [symbol];
    assert one[..0] == [];
  }

  lemma {:induction false} RunIsRunFrom(symbols: seq<Symbol>)
    ensures Run(symbols) == RunFrom(Some([]), symbols)
  {
    if symbols != [] {
      RunIsRunFrom(symbols[..|symbols| - 1]);
    }
  }

  lemma {:induction false} SpelledKeepsStack(items: seq<Item>, stack: seq<char>)
    ensures RunFrom(Some(stack), Spell(items)) == Some(stack)
    decreases items
  {
    if items != [] {
      var initial, item := items[..|items| - 1], items[|items| - 1];
      SpelledKeepsStack(initial, stack);
      RunFromConcat(Some(stack), Spell(initial), SpellItem(item));
      SpelledItemKeepsStack(item, stack);
    }
  }

  lemma {:induction false} SpelledItemKeepsStack(item: Item, stack: seq<char>)
    ensures RunFrom(Some(stack), SpellItem(item)) == Some(stack)
    decreases item
  {
    match item {
      case Plain =>
        RunFromOne(Some(stack), Other);
      case Group(closing, items) =>
        var opening := [Opening(closing)];
        RunFromOne(Some(stack), Opening(closing));
        SpelledKeepsStack(items, stack + [closing]);
        RunFromConcat(Some(stack), opening, Spell(items));
        RunFromConcat(Some(stack), opening + Spell(items), [Closing(closing)]);
        RunFromOne(Some(stack + [closing]), Closing(closing));
        assert (stack + [closing])[..|stack|] == stack;
    }
  }

  // ----- Completeness: the stack records where the unclosed groups began -----

  /** parts[0], an opening, parts[1], an opening, ..., for the openings that the stack waits for. */
  function Weave(parts: seq<seq<Item>>, stack: seq<char>): seq<Symbol>
    requires |parts| == |stack| + 1
    decreases |stack|
  {
    if stack == [] then Spell(parts[0])
    else Weave(parts[..|stack|], stack[..|stack| - 1]) + [Opening(stack[|stack| - 1])] + Spell(parts[|stack|])
  }

  lemma SpellSnoc(items: seq<Item>, item: Item)
    ensures Spell(items + [item]) == Spell(items) + SpellItem(item)
  {
    assert (items + [item])[..|items|] == items;
  }

  /** The text woven before the last part. */
  function Head(parts: seq<seq<Item>>, stack: seq<char>): seq<Symbol>
    requires |parts| == |stack|
  {
    if stack == [] then [] else Weave(parts, stack[..|stack| - 1]) + [Opening(stack[|stack| - 1])]
  }

  lemma WeaveStep(parts: seq<seq<Item>>, stack: seq<char>, last: seq<Item>)
    requires |parts| == |stack|
    ensures Weave(parts + [last], stack) == Head(parts, stack) + Spell(last)
  {
    var all := parts + [last];
    assert all[..|stack|] == parts && all[|stack|] == last;
    if stack == [] {
      assert [] + Spell(last) == Spell(last);
    }
  }

  /** Extending the last part extends the woven text. */
  lemma WeaveExtends(parts: seq<seq<Item>>, stack: seq<char>, last: seq<Item>, item: Item)
    requires |parts| == |stack|
    ensures Weave(parts + [last + [item]], stack) == Weave(parts + [last], stack) + SpellItem(item)
  {
    hide Weave, Spell, SpellItem, Head;
    SpellSnoc(last, item);
    WeaveStep(parts, stack, last);
    WeaveStep(parts, stack, last + [item]);
    ConcatIsAssociative(Head(parts, stack), Spell(last), SpellItem(item));
  }

  /** Closing the innermost group turns the last part into an item of the part before. */
  lemma WeaveClose(parts: seq<seq<Item>>, stack: seq<char>, closing: char, last: seq<Item>)
    requires |parts| == |stack| + 1
    ensures Weave(parts + [last], stack + [closing]) + [Closing(closing)] ==
      Weave(parts, stack) + SpellItem(Group(closing, last))
  {
    WeaveStep(parts, stack + [closing], last);
    assert (stack + [closing])[..|stack|] == stack;
    CloseGroup(Weave(parts, stack), [Opening(closing)], Spell(last), [Closing(closing)]);
  }

  lemma CloseGroup(outer: seq<Symbol>, opening: seq<Symbol>, inner: seq<Symbol>, closing: seq<Symbol>)
    ensures ((outer + opening) + inner) + closing == outer + ((opening + inner) + closing)
  {
  }

  /** Whatever the machine has read is woven from items and the openings on its stack. */
  lemma {:induction false} Unweave(symbols: seq<Symbol>) returns (parts: seq<seq<Item>>)
    requires Run(symbols).Some?
    ensures |parts| == |Run(symbols).value| + 1 && Weave(parts, Run(symbols).value) == symbols
  {
    if symbols == [] {
      parts := [[]];
    } else {
      var initial, symbol := symbols[..|symbols| - 1], symbols[|symbols| - 1];
      var before := Unweave(initial);
      var stack := Run(initial).value;
      var n := |stack|;
      assert symbols == initial + [symbol];
      var outer, last := before[..n], before[n];
      assert before == outer + [last];
      hide Weave, Spell, SpellItem;
      match symbol {
        case Other =>
          parts := outer + [last + [Plain]];
          WeaveExtends(outer, stack, last, Plain);
          SpellPlain();
        case Opening(closing) =>
          parts := before + [[]];
          WeaveOpen(before, stack, closing);
        case Closing(closing) =>
          var remaining := stack[..n - 1];
          assert stack == remaining + [closing];
          var group := Group(closing, last);
          assert outer == outer[..n - 1] + [outer[n - 1]];
          parts := outer[..n - 1] + [outer[n - 1] + [group]];
          WeaveExtends(outer[..n - 1], remaining, outer[n - 1], group);
          WeaveClose(outer, remaining, closing, last);
      }
    }
  }

  lemma SpellPlain()
    ensures SpellItem(Plain) == [Other]
  {
  }

  lemma WeaveOpen(parts: seq<seq<Item>>, stack: seq<char>, closing: char)
    requires |parts| == |stack| + 1
    ensures Weave(parts + [[]], stack + [closing]) == Weave(parts, stack) + [Opening(closing)]
  {
    WeaveStep(parts, stack + [closing], []);
    assert (stack + [closing])[..|stack|] == stack;
    assert Weave(parts, stack) + [Opening(closing)] + [] == Weave(parts, stack) + [Opening(closing)];
  }

  /** The machine ends with an empty stack exactly on the spelled texts. */
  lemma AcceptsIffBalanced(symbols: seq<Symbol>)
    ensures Run(symbols) == Some([]) <==> IsBalanced(symbols)
  {
    if Run(symbols) == Some([]) {
      var parts := Unweave(symbols);
    }
    if IsBalanced(symbols) {
      var items :| Spell(items) == symbols;
      SpelledKeepsStack(items, []);
      RunIsRunFrom(symbols);
    }
  }
}
