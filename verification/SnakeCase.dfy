/** Two camel-to-snake converters: the one-pass Go loop and the three Python rewrites. */
module SnakeCase {
  import opened Wrappers
  import opened Texts

  predicate IsLowerOrDigit(c: char) { IsLower(c) || IsDigit(c) }

  function ToLower(c: char): char
  {
    if IsUpper(c) then (c as int + 32) as char else c
  }

  function Lower(text: string): string
  {
    seq(|text|, i requires 0 <= i < |text| => ToLower(text[i]))
  }

  function Head(isMarked: bool, c: char): string
  {
    if isMarked then ['_', c] else [c]
  }

  /** A text with an underscore in front of each marked character. */
  function Insert(text: string, marks: seq<bool>): string
    requires |marks| == |text|
  {
    if text == [] then [] else Head(marks[0], text[0]) + Insert(text[1..], marks[1..])
  }

  function Previous(previous: Option<char>, text: string, i: nat): Option<char>
    requires i <= |text|
  {
    if i == 0 then previous else Some(text[i - 1])
  }

  // ----- Where each converter splits, looking at a nonempty rest of the name and the character before it -----

  predicate StartsWord(previous: Option<char>, text: string)
    requires text != []
  {
    previous.Some? && IsLowerOrDigit(previous.value) && IsUpper(text[0])
  }

  predicate EndsAcronym(previous: Option<char>, text: string)
    requires text != []
  {
    previous.Some? && IsUpper(previous.value) && IsUpper(text[0]) && |text| > 1 && IsLower(text[1])
  }

  /** The capital is followed by a plural s, as in IDs. */
  predicate IsPlural(text: string)
    requires text != []
  {
    |text| > 1 && text[1] == 's' && (|text| == 2 || !IsLower(text[2]))
  }

  predicate GoSplits(previous: Option<char>, text: string)
    requires text != []
  {
    StartsWord(previous, text) || (EndsAcronym(previous, text) && !IsPlural(text))
  }

  predicate PythonSplits(previous: Option<char>, text: string)
    requires text != []
  {
    StartsWord(previous, text) || EndsAcronym(previous, text)
  }

  function GoMarks(previous: Option<char>, text: string): (marks: seq<bool>)
    ensures |marks| == |text|
    decreases |text|
  {
    if text == [] then [] else [GoSplits(previous, text)] + GoMarks(Some(text[0]), text[1..])
  }

  function PythonMarks(previous: Option<char>, text: string): (marks: seq<bool>)
    ensures |marks| == |text|
    decreases |text|
  {
    if text == [] then [] else [PythonSplits(previous, text)] + PythonMarks(Some(text[0]), text[1..])
  }

  lemma {:induction false} MarkAt(previous: Option<char>, text: string, i: nat)
    requires i < |text|
    ensures GoMarks(previous, text)[i] == GoSplits(Previous(previous, text, i), text[i..])
    ensures PythonMarks(previous, text)[i] == PythonSplits(Previous(previous, text, i), text[i..])
    decreases |text|
  {
    if i > 0 {
      MarkAt(Some(text[0]), text[1..], i - 1);
      assert text[1..][i - 1..] == text[i..];
    }
  }

  // ----- Go: one pass -----

  function GoSnake(name: string): string
  {
    Lower(Insert(name, GoMarks(None, name)))
  }

  lemma LowerConcat(left: string, right: string)
    ensures Lower(left + right) == Lower(left) + Lower(right)
  {
  }

  /** The converter's output from index on. */
  function GoRest(name: string, index: nat): string
    requires index <= |name|
  {
    Lower(Insert(name[index..], GoMarks(Previous(None, name, index), name[index..])))
  }

  lemma LowerHead(isMarked: bool, c: char)
    ensures Lower(Head(isMarked, c)) == Head(isMarked, ToLower(c))
  {
  }

  lemma InsertStep(text: string, marks: seq<bool>)
    requires text != [] && |marks| == |text|
    ensures Lower(Insert(text, marks)) == Head(marks[0], ToLower(text[0])) + Lower(Insert(text[1..], marks[1..]))
  {
    LowerConcat(Head(marks[0], text[0]), Insert(text[1..], marks[1..]));
    hide Lower, Head;
    LowerHead(marks[0], text[0]);
  }

  lemma GoRestStep(name: string, index: nat)
    requires index < |name|
    ensures GoRest(name, index) ==
      Head(GoSplits(Previous(None, name, index), name[index..]), ToLower(name[index])) + GoRest(name, index + 1)
  {
    var text, previous := name[index..], Previous(None, name, index);
    var marks := GoMarks(previous, text);
    assert text[1..] == name[index + 1..];
    assert marks[1..] == GoMarks(Some(text[0]), text[1..]);
    InsertStep(text, marks);
  }

  method LowerCamelToSnake(name: string) returns (converted: string)
    ensures converted == GoSnake(name)
  {
    hide GoRest;
    converted := "";
    GoRestStart(name);
    for index := 0 to |name|
      invariant converted + GoRest(name, index) == GoSnake(name)
    {
      GoRestStep(name, index);
      var character := name[index];
      if IsUpper(character) {
        var isPreviousLowerOrDigit := index > 0 && IsLowerOrDigit(name[index - 1]);
        var isEndOfAcronym := index > 0 && index + 1 < |name| && IsUpper(name[index - 1]) && IsLower(name[index + 1]);
        var isAcronymPlural :=
          index + 1 < |name| && name[index + 1] == 's' && (index + 2 == |name| || !IsLower(name[index + 2]));
        isEndOfAcronym := isEndOfAcronym && !isAcronymPlural;
        ghost var before := converted;
        if isPreviousLowerOrDigit || isEndOfAcronym {
          converted := converted + "_";
        }
        converted := converted + [(character as int + 32) as char];
        assert converted == before + Head(isPreviousLowerOrDigit || isEndOfAcronym, ToLower(character));
        ConcatIsAssociative(before, Head(isPreviousLowerOrDigit || isEndOfAcronym, ToLower(character)),
          GoRest(name, index + 1));
      } else {
        ConcatIsAssociative(converted, [character], GoRest(name, index + 1));
        converted := converted + [character];
      }
    }
    GoRestEnd(name);
  }

  lemma GoRestStart(name: string)
    ensures GoRest(name, 0) == GoSnake(name)
  {
    assert name[0..] == name;
  }

  lemma GoRestEnd(name: string)
    ensures GoRest(name, |name|) == ""
  {
  }

  /** Where the converter writes an underscore, by character ranges. */
  predicate WritesUnderscore(name: string, i: nat)
    requires i < |name|
  {
    && i > 0 && 'A' <= name[i] <= 'Z'
    && (|| 'a' <= name[i - 1] <= 'z' || '0' <= name[i - 1] <= '9'
        || ('A' <= name[i - 1] <= 'Z' && i + 1 < |name| && 'a' <= name[i + 1] <= 'z' &&
            !(name[i + 1] == 's' && (i + 2 == |name| || name[i + 2] < 'a' || name[i + 2] > 'z'))))
  }

  /** What the converter writes from index i on: each capital as its lowercase letter, everything else as it is. */
  function Written(name: string, i: nat): string
    requires i <= |name|
    decreases |name| - i
  {
    if i == |name| then ""
    else
      (if WritesUnderscore(name, i) then "_" else "") +
      [if 'A' <= name[i] <= 'Z' then (name[i] as int - 'A' as int + 'a' as int) as char else name[i]] +
      Written(name, i + 1)
  }

  lemma {:induction false} GoRestIsWritten(name: string, i: nat)
    requires i <= |name|
    ensures GoRest(name, i) == Written(name, i)
    decreases |name| - i
  {
    if i == |name| {
      GoRestEnd(name);
    } else {
      GoRestIsWritten(name, i + 1);
      GoRestStep(name, i);
      SplitsIffUnderscore(name, i);
      HeadIsWritten(WritesUnderscore(name, i), name[i]);
      hide GoRest, GoSplits, WritesUnderscore, Head, ToLower;
    }
  }

  lemma HeadIsWritten(isMarked: bool, c: char)
    ensures Head(isMarked, ToLower(c)) ==
      (if isMarked then "_" else "") + [if 'A' <= c <= 'Z' then (c as int - 'A' as int + 'a' as int) as char else c]
  {
  }

  lemma SplitsIffUnderscore(name: string, i: nat)
    requires i < |name|
    ensures GoSplits(Previous(None, name, i), name[i..]) <==> WritesUnderscore(name, i)
  {
    var text := name[i..];
    assert text[0] == name[i] && (|text| > 1 ==> text[1] == name[i + 1]) && (|text| > 2 ==> text[2] == name[i + 2]);
  }

  /** The Go converter, said by character ranges. */
  lemma GoSnakeIsWritten(name: string)
    ensures GoSnake(name) == Written(name, 0)
  {
    GoRestStart(name);
    GoRestIsWritten(name, 0);
  }

  function Erased(text: string): string
  {
    if text == [] then [] else (if text[0] == '_' then "" else [text[0]]) + Erased(text[1..])
  }

  /** Erasing the underscores of the output gives the lowercased name. */
  lemma {:induction false} ErasingGivesLowercase(name: string, marks: seq<bool>)
    requires |marks| == |name| && '_' !in name
    ensures Erased(Lower(Insert(name, marks))) == Lower(name)
  {
    if name != [] {
      ErasingGivesLowercase(name[1..], marks[1..]);
      InsertStep(name, marks);
      assert Lower(name) == [ToLower(name[0])] + Lower(name[1..]);
      var letter, rest := ToLower(name[0]), Lower(Insert(name[1..], marks[1..]));
      assert name[0] in name && letter != '_';
      ErasedHead(marks[0], letter, rest);
    }
  }

  lemma ErasedHead(isMarked: bool, letter: char, rest: string)
    requires letter != '_'
    ensures Erased(Head(isMarked, letter) + rest) == [letter] + Erased(rest)
  {
    assert ([letter] + rest)[1..] == rest;
    assert Erased([letter] + rest) == [letter] + Erased(rest);
    assert (['_', letter] + rest)[1..] == [letter] + rest;
  }

  // ----- Python: re.sub three times -----

  /** re.sub(r"(URLs|IDs)$", title) */
  function TitlePlural(name: string): string
  {
    if PluralStart(name) == |name| then name
    else if name[PluralStart(name)] == 'U' then name[..PluralStart(name)] + "Urls"
    else name[..PluralStart(name)] + "Ids"
  }

  /** Where a final URLs or IDs begins, or the length. */
  function PluralStart(name: string): (start: nat)
    ensures start <= |name|
    ensures start < |name| ==> name[start..] == "URLs" || name[start..] == "IDs"
  {
    if |name| >= 4 && name[|name| - 4..] == "URLs" then |name| - 4
    else if |name| >= 3 && name[|name| - 3..] == "IDs" then |name| - 3
    else |name|
  }

  function CapitalRun(text: string): (length: nat)
    ensures length <= |text| && forall i :: 0 <= i < length ==> IsUpper(text[i])
    ensures length < |text| ==> !IsUpper(text[length])
  {
    if text == [] || !IsUpper(text[0]) then 0 else 1 + CapitalRun(text[1..])
  }

  /** Backtracking of ([A-Z]+)([A-Z][a-z]) at the start of a text: the length of the first group. */
  function MatchAcronym(text: string, length: nat): Option<nat>
    requires length <= |text|
  {
    if length == 0 then None
    else if length + 1 < |text| && IsUpper(text[length]) && IsLower(text[length + 1]) then Some(length)
    else MatchAcronym(text, length - 1)
  }

  /** re.sub(r"([A-Z]+)([A-Z][a-z])", r"\\1_\\2") */
  function SplitAcronyms(text: string): string
    decreases |text|
  {
    if text == [] then []
    else
      var group := MatchAcronym(text, CapitalRun(text));
      if group.None? || group.value + 2 > |text| then [text[0]] + SplitAcronyms(text[1..])
      else text[..group.value] + "_" + text[group.value..group.value + 2] + SplitAcronyms(text[group.value + 2..])
  }

  /** re.sub(r"([a-z0-9])([A-Z])", r"\\1_\\2") */
  function SplitWords(text: string): string
    decreases |text|
  {
    if text == [] then []
    else if |text| > 1 && IsLowerOrDigit(text[0]) && IsUpper(text[1])
      then [text[0], '_', text[1]] + SplitWords(text[2..])
    else [text[0]] + SplitWords(text[1..])
  }

  function ReplaceDashes(text: string): string
  {
    if text == [] then [] else [if text[0] == '-' then '_' else text[0]] + ReplaceDashes(text[1..])
  }

  function PythonSnake(value: string): string
  {
    Lower(ReplaceDashes(SplitWords(SplitAcronyms(TitlePlural(value)))))
  }

  // ----- The rewrites split where PythonSplits says -----

  function InsertAcronyms(previous: Option<char>, text: string): string
    decreases |text|
  {
    if text == [] then []
    else Head(EndsAcronym(previous, text), text[0]) + InsertAcronyms(Some(text[0]), text[1..])
  }

  function InsertWords(previous: Option<char>, text: string): string
    decreases |text|
  {
    if text == [] then []
    else Head(StartsWord(previous, text), text[0]) + InsertWords(Some(text[0]), text[1..])
  }

  lemma {:induction false} NoShorterMatch(text: string, length: nat)
    requires length + 2 <= CapitalRun(text)
    ensures MatchAcronym(text, length) == None
  {
    if length > 0 {
      assert IsUpper(text[length + 1]);
      NoShorterMatch(text, length - 1);
    }
  }

  /** The only match ends with the last capital of the run and the lowercase letter after it. */
  lemma MatchIsWholeRun(text: string)
    ensures var run := CapitalRun(text);
      MatchAcronym(text, run) == if run >= 2 && run < |text| && IsLower(text[run]) then Some(run - 1) else None
  {
    var run := CapitalRun(text);
    if run >= 2 {
      NoShorterMatch(text, run - 2);
    }
  }

  lemma InsertAcronymsStep(previous: Option<char>, text: string)
    requires text != []
    ensures var rest := InsertAcronyms(Some(text[0]), text[1..]);
      InsertAcronyms(previous, text) == if EndsAcronym(previous, text) then ['_', text[0]] + rest else [text[0]] + rest
  {
  }

  /** A run of capitals before a lowercase letter is split in front of its last capital. */
  lemma {:induction false} InsertAcronymsRun(previous: Option<char>, text: string, run: nat)
    requires 1 <= run < |text| && (forall i :: 0 <= i < run ==> IsUpper(text[i])) && IsLower(text[run])
    requires run == 1 ==> previous.Some? && IsUpper(previous.value)
    ensures InsertAcronyms(previous, text) ==
      text[..run - 1] + (['_', text[run - 1], text[run]] + InsertAcronyms(Some(text[run]), text[run + 1..]))
    decreases run
  {
    hide InsertAcronyms;
    InsertAcronymsStep(previous, text);
    var tail := InsertAcronyms(Some(text[run]), text[run + 1..]);
    var rest := text[1..];
    if run == 1 {
      InsertAcronymsStep(Some(text[0]), rest);
      assert rest[1..] == text[2..];
      ConcatIsAssociative(['_', text[0]], [text[1]], tail);
      assert ['_', text[0]] + [text[1]] == ['_', text[0], text[1]];
    } else {
      assert rest[run - 1] == text[run] && rest[run - 2] == text[run - 1] && rest[run..] == text[run + 1..];
      InsertAcronymsRun(Some(text[0]), rest, run - 1);
      ConcatIsAssociative([text[0]], rest[..run - 2], ['_', text[run - 1], text[run]] + tail);
      assert text[..run - 1] == [text[0]] + rest[..run - 2];
    }
  }

  /** Only a capital before a capital and a lowercase letter matters. */
  lemma PreviousIgnored(previous: Option<char>, text: string)
    requires text == [] || !EndsAcronym(previous, text)
    ensures InsertAcronyms(previous, text) == InsertAcronyms(None, text)
  {
  }

  lemma {:induction false} AcronymsAreInserted(text: string)
    ensures SplitAcronyms(text) == InsertAcronyms(None, text)
    decreases |text|
  {
    if text != [] {
      hide InsertAcronyms;
      MatchIsWholeRun(text);
      var run := CapitalRun(text);
      if run >= 2 && run < |text| && IsLower(text[run]) {
        InsertAcronymsRun(None, text, run);
        AcronymsAreInserted(text[run + 1..]);
        PreviousIgnored(Some(text[run]), text[run + 1..]);
        SplitAtRun(text, run);
      } else {
        AcronymsAreInserted(text[1..]);
        PreviousIgnored(Some(text[0]), text[1..]);
        InsertAcronymsStep(None, text);
      }
    }
  }

  lemma SplitAtRun(text: string, run: nat)
    requires 2 <= run < |text| && run == CapitalRun(text) && MatchAcronym(text, run) == Some(run - 1)
    ensures SplitAcronyms(text) == text[..run - 1] + (['_', text[run - 1], text[run]] + SplitAcronyms(text[run + 1..]))
  {
    var tail := SplitAcronyms(text[run + 1..]);
    assert text[run - 1..run + 1] == [text[run - 1], text[run]];
    assert SplitAcronyms(text) == text[..run - 1] + "_" + [text[run - 1], text[run]] + tail;
    assert text[..run - 1] + "_" + [text[run - 1], text[run]] == text[..run - 1] + ['_', text[run - 1], text[run]];
    ConcatIsAssociative(text[..run - 1], ['_', text[run - 1], text[run]], tail);
  }

  lemma WordsPreviousIgnored(previous: Option<char>, text: string)
    requires text == [] || !StartsWord(previous, text)
    ensures InsertWords(previous, text) == InsertWords(None, text)
  {
  }

  lemma {:induction false} WordsAreInserted(text: string)
    ensures SplitWords(text) == InsertWords(None, text)
    decreases |text|
  {
    if text != [] {
      if |text| > 1 && IsLowerOrDigit(text[0]) && IsUpper(text[1]) {
        WordsAreInserted(text[2..]);
        WordsPreviousIgnored(Some(text[1]), text[2..]);
        var rest := InsertWords(None, text[2..]);
        assert text == [text[0]] + ([text[1]] + text[2..]);
        hide InsertWords;
        InsertWordsStep(Some(text[0]), text[1], text[2..]);
        InsertWordsStep(None, text[0], [text[1]] + text[2..]);
        assert [text[0]] + (['_', text[1]] + rest) == [text[0], '_', text[1]] + rest;
      } else {
        WordsAreInserted(text[1..]);
        WordsPreviousIgnored(Some(text[0]), text[1..]);
      }
    }
  }

  lemma InsertWordsStep(previous: Option<char>, c: char, rest: string)
    ensures InsertWords(previous, [c] + rest) ==
      Head(previous.Some? && IsLowerOrDigit(previous.value) && IsUpper(c), c) + InsertWords(Some(c), rest)
  {
    assert ([c] + rest)[1..] == rest;
  }

  /** The word rewrite passes over an underscore that the acronym rewrite inserted after a capital. */
  lemma WordsAfterAcronym(previous: Option<char>, isEnd: bool, c: char, rest: string)
    requires isEnd ==> previous.Some? && IsUpper(previous.value)
    ensures InsertWords(previous, Head(isEnd, c) + rest) ==
      Head(isEnd || (previous.Some? && IsLowerOrDigit(previous.value) && IsUpper(c)), c) + InsertWords(Some(c), rest)
  {
    hide InsertWords;
    InsertWordsStep(previous, c, rest);
    if isEnd {
      assert ['_', c] + rest == ['_'] + ([c] + rest);
      InsertWordsStep(previous, '_', [c] + rest);
      InsertWordsStep(Some('_'), c, rest);
      ConcatIsAssociative(['_'], [c], InsertWords(Some(c), rest));
    }
  }

  lemma {:induction false} InsertedTwice(previous: Option<char>, text: string)
    ensures InsertWords(previous, InsertAcronyms(previous, text)) == Insert(text, PythonMarks(previous, text))
    decreases |text|
  {
    if text != [] {
      InsertedTwice(Some(text[0]), text[1..]);
      WordsAfterAcronym(previous, EndsAcronym(previous, text), text[0], InsertAcronyms(Some(text[0]), text[1..]));
      hide InsertWords, Head;
      assert PythonMarks(previous, text)[1..] == PythonMarks(Some(text[0]), text[1..]);
    }
  }

  lemma {:induction false} NoDashes(text: string)
    requires '-' !in text
    ensures ReplaceDashes(text) == text
  {
    if text != [] {
      assert text[0] in text;
      NoDashes(text[1..]);
    }
  }

  lemma {:induction false} InsertAddsNoDash(text: string, marks: seq<bool>)
    requires |marks| == |text| && '-' !in text
    ensures '-' !in Insert(text, marks)
  {
    if text != [] {
      assert text[0] in text;
      InsertAddsNoDash(text[1..], marks[1..]);
    }
  }

  /** The three rewrites are one insertion into the retitled name. */
  lemma PythonIsInsertion(name: string)
    ensures var inserted := Insert(TitlePlural(name), PythonMarks(None, TitlePlural(name)));
      && PythonSnake(name) == Lower(ReplaceDashes(inserted))
      && ('-' !in name ==> PythonSnake(name) == Lower(inserted))
  {
    var titled := TitlePlural(name);
    TitleKeepsCharacters(name);
    AcronymsAreInserted(titled);
    WordsAreInserted(InsertAcronyms(None, titled));
    InsertedTwice(None, titled);
    if '-' !in name {
      InsertAddsNoDash(titled, PythonMarks(None, titled));
      NoDashes(Insert(titled, PythonMarks(None, titled)));
    }
  }

  lemma TitleKeepsCharacters(name: string)
    ensures '-' !in name ==> '-' !in TitlePlural(name)
    ensures |TitlePlural(name)| == |name| && Lower(TitlePlural(name)) == Lower(name)
    ensures TitlePlural(name)[..PluralStart(name)] == name[..PluralStart(name)]
  {
    var start := PluralStart(name);
    if start < |name| {
      var base := name[..start];
      assert name == base + name[start..];
      LowerConcat(base, name[start..]);
      if name[start..] == "URLs" {
        assert name[start] == 'U';
        LowerConcat(base, "Urls");
        LowerOfUrls();
      } else {
        assert name[start..][0] == 'I';
        LowerConcat(base, "Ids");
        LowerOfIds();
      }
    }
  }

  lemma LowerOfUrls()
    ensures Lower("URLs") == Lower("Urls")
  {
  }

  lemma LowerOfIds()
    ensures Lower("IDs") == Lower("Ids")
  {
  }

  // ----- When the converters agree -----

  lemma {:induction false} InsertionsEqual(left: string, right: string, leftMarks: seq<bool>, rightMarks: seq<bool>)
    requires |left| == |right| == |leftMarks| == |rightMarks|
    requires Lower(left) == Lower(right) && '_' !in left && '_' !in right
    ensures Lower(Insert(left, leftMarks)) == Lower(Insert(right, rightMarks)) <==> leftMarks == rightMarks
  {
    if left != [] {
      var leftRest, rightRest := Insert(left[1..], leftMarks[1..]), Insert(right[1..], rightMarks[1..]);
      assert Lower(left)[0] == Lower(right)[0];
      assert Lower(left[1..]) == Lower(left)[1..] && Lower(right[1..]) == Lower(right)[1..];
      InsertionsEqual(left[1..], right[1..], leftMarks[1..], rightMarks[1..]);
      assert left[0] in left && right[0] in right;
      InsertStep(left, leftMarks);
      InsertStep(right, rightMarks);
      assert leftMarks == [leftMarks[0]] + leftMarks[1..] && rightMarks == [rightMarks[0]] + rightMarks[1..];
      var letter := ToLower(left[0]);
      assert letter == ToLower(right[0]) && letter != '_';
      if leftMarks[0] == rightMarks[0] {
        PrefixCancels(Head(leftMarks[0], letter), Lower(leftRest), Lower(rightRest));
      } else {
        assert Lower(Insert(left, leftMarks))[0] != Lower(Insert(right, rightMarks))[0];
      }
    }
  }

  lemma PrefixCancels(prefix: string, left: string, right: string)
    ensures prefix + left == prefix + right <==> left == right
  {
    assert (prefix + left)[|prefix|..] == left && (prefix + right)[|prefix|..] == right;
  }

  /** A capital inside a run of capitals, followed by a plural s: the one place where the Go loop does not split. */
  predicate IsPluralAcronymAt(name: string, i: nat)
    requires 1 <= i < |name|
  {
    && IsUpper(name[i - 1]) && IsUpper(name[i])
    && i + 1 < |name| && name[i + 1] == 's' && (i + 2 == |name| || !IsLower(name[i + 2]))
  }

  predicate PythonSplitsAt(name: string, i: nat)
    requires i < |name|
  {
    i > 0 && IsUpper(name[i]) &&
      (IsLowerOrDigit(name[i - 1]) || (IsUpper(name[i - 1]) && i + 1 < |name| && IsLower(name[i + 1])))
  }

  lemma MarksByIndex(name: string, i: nat)
    requires i < |name|
    ensures PythonMarks(None, name)[i] == PythonSplitsAt(name, i)
    ensures GoMarks(None, name)[i] == (PythonSplitsAt(name, i) && (i > 0 ==> !IsPluralAcronymAt(name, i)))
  {
    hide GoMarks, PythonMarks;
    MarkAt(None, name, i);
    var text := name[i..];
    assert text[0] == name[i] && (|text| > 1 ==> text[1] == name[i + 1]) && (|text| > 2 ==> text[2] == name[i + 2]);
  }

  /** No plural acronym, or only a final IDs or URLs that starts a word of its own. */
  ghost predicate ConvertersAgreeOn(name: string)
  {
    var start := PluralStart(name);
    && (forall i :: 1 <= i < start ==> !IsPluralAcronymAt(name, i))
    && (start < |name| ==> start > 0 && !IsUpper(name[start - 1]))
  }

  /** The characters of a name with a final plural, before and after the retitling. */
  lemma PluralShape(name: string)
    ensures var start, titled := PluralStart(name), TitlePlural(name);
      && |titled| == |name|
      && (forall j :: 0 <= j < start ==> titled[j] == name[j])
      && (start < |name| ==>
            (|name| == start + 4 && name[start] == 'U' && name[start + 1] == 'R' && name[start + 2] == 'L' &&
              name[start + 3] == 's' &&
             titled[start] == 'U' && titled[start + 1] == 'r' && titled[start + 2] == 'l' && titled[start + 3] == 's')
            || (|name| == start + 3 && name[start] == 'I' && name[start + 1] == 'D' && name[start + 2] == 's' &&
                titled[start] == 'I' && titled[start + 1] == 'd' && titled[start + 2] == 's'))
  {
    var start := PluralStart(name);
    if start < |name| {
      var final := name[start..];
      assert final[0] == name[start] && final[1] == name[start + 1] && final[2] == name[start + 2];
      assert final == "URLs" ==> final[3] == name[start + 3];
    }
  }

  lemma MarksBeforePlural(name: string, i: nat)
    requires i < PluralStart(name)
    ensures GoMarks(None, name)[i] == PythonMarks(None, TitlePlural(name))[i] <==> i == 0 || !IsPluralAcronymAt(name, i)
  {
    hide GoMarks, PythonMarks, PluralStart, TitlePlural;
    PluralShape(name);
    MarksByIndex(name, i);
    MarksByIndex(TitlePlural(name), i);
  }

  /** Inside a final IDs or URLs neither converter splits. */
  lemma MarksInsidePlural(name: string, i: nat)
    requires PluralStart(name) < i < |name|
    ensures !GoMarks(None, name)[i] && !PythonMarks(None, TitlePlural(name))[i]
  {
    var start := PluralStart(name);
    MarksByIndex(name, i);
    MarksByIndex(TitlePlural(name), i);
    hide GoMarks, PythonMarks, PluralStart, TitlePlural, PythonSplitsAt, IsPluralAcronymAt;
    PluralShape(name);
    RetitledIsLower(name, i);
    NoSplitAtLower(TitlePlural(name), i);
    PluralIsNotSplit(name, start, i);
  }

  lemma RetitledIsLower(name: string, i: nat)
    requires PluralStart(name) < i < |name|
    ensures !IsUpper(TitlePlural(name)[i])
  {
    hide PluralStart, TitlePlural;
    PluralShape(name);
  }

  lemma NoSplitAtLower(name: string, i: nat)
    requires i < |name| && !IsUpper(name[i])
    ensures !PythonSplitsAt(name, i)
  {
  }

  lemma PluralIsNotSplit(name: string, start: nat, i: nat)
    requires start < i < |name|
    requires
      || (|name| == start + 4 && name[start] == 'U' && name[start + 1] == 'R' && name[start + 2] == 'L' &&
          name[start + 3] == 's')
      || (|name| == start + 3 && name[start] == 'I' && name[start + 1] == 'D' && name[start + 2] == 's')
    ensures PythonSplitsAt(name, i) ==> IsPluralAcronymAt(name, i)
  {
    assert i == start + 1 || i == start + 2 || i == start + 3;
  }

  /** In front of it they differ after a capital. */
  lemma MarksAtPlural(name: string)
    requires 0 < PluralStart(name) < |name|
    ensures var start := PluralStart(name);
      GoMarks(None, name)[start] == PythonMarks(None, TitlePlural(name))[start] <==> !IsUpper(name[start - 1])
  {
    hide GoMarks, PythonMarks, PluralStart, TitlePlural;
    PluralShape(name);
    MarksByIndex(name, PluralStart(name));
    MarksByIndex(TitlePlural(name), PluralStart(name));
  }

  lemma PluralIsNotFirst(name: string)
    requires IsLowerCamel(name)
    ensures PluralStart(name) > 0
  {
    PluralShape(name);
  }

  /** The converters agree on a lower-camel name exactly when ConvertersAgreeOn holds of it. */
  lemma AgreementIsExact(name: string)
    requires IsLowerCamel(name)
    ensures GoSnake(name) == PythonSnake(name) <==> ConvertersAgreeOn(name)
  {
    hide Lower, Insert;
    var titled, start := TitlePlural(name), PluralStart(name);
    LowerCamelCharacters(name);
    PythonIsInsertion(name);
    TitleKeepsCharacters(name);
    var go, python := GoMarks(None, name), PythonMarks(None, titled);
    InsertionsEqual(name, titled, go, python);
    forall i | 0 <= i < start ensures go[i] == python[i] <==> i == 0 || !IsPluralAcronymAt(name, i) {
      MarksBeforePlural(name, i);
    }
    forall i | start < i < |name| ensures go[i] == python[i] {
      MarksInsidePlural(name, i);
    }
    PluralIsNotFirst(name);
    if start < |name| {
      MarksAtPlural(name);
    }
    if go == python {
      forall i | 1 <= i < start ensures !IsPluralAcronymAt(name, i) {
        assert go[i] == python[i];
      }
      assert start < |name| ==> go[start] == python[start];
    }
    if ConvertersAgreeOn(name) {
      forall i | 0 <= i < |name| ensures go[i] == python[i] {
        assert 1 <= i < start ==> !IsPluralAcronymAt(name, i);
      }
    }
  }

  /** An operation name on which they disagree. */
  lemma ConvertersDisagree()
    ensures IsLowerCamel("readAPIs") && !ConvertersAgreeOn("readAPIs")
    ensures GoSnake("readAPIs") != PythonSnake("readAPIs")
  {
    var name := "readAPIs";
    assert IsPluralAcronymAt(name, 6);
    AgreementIsExact(name);
  }

  lemma LowerCamelCharacters(name: string)
    requires IsLowerCamel(name)
    ensures '-' !in name && '_' !in name && '_' !in TitlePlural(name)
  {
    hide PluralStart, TitlePlural;
    PluralShape(name);
    var titled := TitlePlural(name);
    forall j | 0 <= j < |titled| ensures titled[j] != '_' {
    }
  }
}
