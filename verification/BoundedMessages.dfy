/** boundedFailureMessage: any byte string becomes valid UTF-8 of at most 1024 bytes without cutting a character. */
module BoundedMessages {
  import opened Wrappers
  import opened Texts

  const MAX_FAILURE_MESSAGE_BYTES := 1024
  const RUNE_ERROR := 0xfffd

  // ----- Valid UTF-8: the syntax of section 4 of RFC 3629 -----

  predicate InRange(b: Byte, low: int, high: int)
  {
    low <= b as int <= high
  }

  predicate IsTail(b: Byte)
  {
    InRange(b, 0x80, 0xbf)
  }

  /** The second byte that a first byte of three or four bytes allows. */
  predicate IsSecond(first: Byte, second: Byte)
  {
    if first == 0xe0 then InRange(second, 0xa0, 0xbf)
    else if first == 0xed then InRange(second, 0x80, 0x9f)
    else if first == 0xf0 then InRange(second, 0x90, 0xbf)
    else if first == 0xf4 then InRange(second, 0x80, 0x8f)
    else IsTail(second)
  }

  /** The length that a first byte announces; 0 for a byte that starts no character. */
  function Announced(first: Byte): nat
  {
    if first <= 0x7f then 1
    else if InRange(first, 0xc2, 0xdf) then 2
    else if InRange(first, 0xe0, 0xef) then 3
    else if InRange(first, 0xf0, 0xf4) then 4
    else 0
  }

  predicate IsCharacter(bytes: seq<Byte>)
  {
    && bytes != []
    && |bytes| == Announced(bytes[0])
    && (|bytes| >= 2 ==> IsSecond(bytes[0], bytes[1]))
    && (|bytes| >= 3 ==> IsTail(bytes[2]))
    && (|bytes| >= 4 ==> IsTail(bytes[3]))
  }

  ghost predicate AreCharacters(characters: seq<seq<Byte>>)
  {
    forall i :: 0 <= i < |characters| ==> IsCharacter(characters[i])
  }

  function Flatten(characters: seq<seq<Byte>>): seq<Byte>
  {
    if characters == [] then [] else Flatten(characters[..|characters| - 1]) + characters[|characters| - 1]
  }

  ghost predicate ValidUtf8(text: seq<Byte>)
  {
    exists characters :: AreCharacters(characters) && Flatten(characters) == text
  }

  // ----- The runes of Go -----

  function TwoByteRune(first: int, second: int): int
  {
    (first - 0xc0) * 0x40 + (second - 0x80)
  }

  function ThreeByteRune(first: int, second: int, third: int): int
  {
    (first - 0xe0) * 0x1000 + (second - 0x80) * 0x40 + (third - 0x80)
  }

  function FourByteRune(first: int, second: int, third: int, fourth: int): int
  {
    (first - 0xf0) * 0x40000 + (second - 0x80) * 0x1000 + (third - 0x80) * 0x40 + (fourth - 0x80)
  }

  /** utf8.DecodeRuneInString of a nonempty string: the rune and its width. */
  function DecodeRune(text: seq<Byte>): (r: (int, nat))
    requires text != []
    ensures 1 <= r.1 <= |text|
  {
    var length := Announced(text[0]);
    if length == 0 || |text| < length || !IsCharacter(text[..length]) then (RUNE_ERROR, 1)
    else if length == 1 then (text[0] as int, 1)
    else if length == 2 then (TwoByteRune(text[0] as int, text[1] as int), 2)
    else if length == 3 then (ThreeByteRune(text[0] as int, text[1] as int, text[2] as int), 3)
    else (FourByteRune(text[0] as int, text[1] as int, text[2] as int, text[3] as int), 4)
  }

  predicate IsScalar(rune: int)
  {
    0 <= rune <= 0x10ffff && !(0xd800 <= rune <= 0xdfff)
  }

  /** utf8.AppendRune; utf8.RuneLen is its length. */
  function EncodeRune(rune: int): seq<Byte>
    requires IsScalar(rune)
  {
    if rune < 0x80 then [rune as Byte]
    else if rune < 0x800 then [(0xc0 + rune / 0x40) as Byte, (0x80 + rune % 0x40) as Byte]
    else if rune < 0x10000
      then [(0xe0 + rune / 0x1000) as Byte, (0x80 + rune / 0x40 % 0x40) as Byte, (0x80 + rune % 0x40) as Byte]
    else [(0xf0 + rune / 0x40000) as Byte, (0x80 + rune / 0x1000 % 0x40) as Byte, (0x80 + rune / 0x40 % 0x40) as Byte,
      (0x80 + rune % 0x40) as Byte]
  }

  lemma DecodeTwo(text: seq<Byte>)
    requires |text| >= 2 && IsCharacter(text[..2])
    ensures IsScalar(DecodeRune(text).0) && EncodeRune(DecodeRune(text).0) == text[..2]
  {
    var low := text[1] as int - 0x80;
    var rune := TwoByteRune(text[0] as int, text[1] as int);
    assert rune / 0x40 == text[0] as int - 0xc0 && rune % 0x40 == low;
    assert text[..2] == [text[0], text[1]];
  }

  /** The base-64 digits of a three-byte rune. */
  lemma ThreeByteDigits(first: int, middle: int, low: int)
    requires 0 <= middle < 0x40 && 0 <= low < 0x40
    ensures var rune := first * 0x1000 + middle * 0x40 + low;
      rune / 0x1000 == first && rune / 0x40 == first * 0x40 + middle && rune / 0x40 % 0x40 == middle &&
        rune % 0x40 == low
  {
    var rune := first * 0x1000 + middle * 0x40 + low;
    assert rune == 0x40 * (first * 0x40 + middle) + low;
    assert rune == 0x1000 * first + (middle * 0x40 + low);
  }

  lemma DecodeThree(text: seq<Byte>)
    requires |text| >= 3 && IsCharacter(text[..3])
    ensures IsScalar(DecodeRune(text).0) && EncodeRune(DecodeRune(text).0) == text[..3]
  {
    var first, middle, low := text[0] as int - 0xe0, text[1] as int - 0x80, text[2] as int - 0x80;
    var rune := ThreeByteRune(text[0] as int, text[1] as int, text[2] as int);
    assert IsSecond(text[..3][0], text[..3][1]);
    ThreeByteDigits(first, middle, low);
    assert text[..3] == [text[0], text[1], text[2]];
  }

  /** The base-64 digits of a four-byte rune. */
  lemma FourByteDigits(first: int, high: int, middle: int, low: int)
    requires 0 <= high < 0x40 && 0 <= middle < 0x40 && 0 <= low < 0x40
    ensures var rune := first * 0x40000 + high * 0x1000 + middle * 0x40 + low;
      rune / 0x40000 == first && rune / 0x1000 % 0x40 == high && rune / 0x40 % 0x40 == middle && rune % 0x40 == low
  {
    var rune := first * 0x40000 + high * 0x1000 + middle * 0x40 + low;
    assert rune / 0x40 == first * 0x1000 + high * 0x40 + middle;
    assert rune / 0x1000 == first * 0x40 + high;
  }

  lemma DecodeFour(text: seq<Byte>)
    requires |text| >= 4 && IsCharacter(text[..4])
    ensures IsScalar(DecodeRune(text).0) && EncodeRune(DecodeRune(text).0) == text[..4]
  {
    var first, high, middle, low :=
      text[0] as int - 0xf0, text[1] as int - 0x80, text[2] as int - 0x80, text[3] as int - 0x80;
    assert IsSecond(text[..4][0], text[..4][1]);
    FourByteDigits(first, high, middle, low);
    assert text[..4] == [text[0], text[1], text[2], text[3]];
  }

  /** Re-encoding a decoded rune gives back a whole character, and the replacement character for anything else. */
  lemma DecodedRune(text: seq<Byte>)
    requires text != []
    ensures IsScalar(DecodeRune(text).0) && IsCharacter(EncodeRune(DecodeRune(text).0))
    ensures IsCharacter(text[..DecodeRune(text).1]) ==> EncodeRune(DecodeRune(text).0) == text[..DecodeRune(text).1]
    ensures DecodeRune(text).0 != RUNE_ERROR ==> IsCharacter(text[..DecodeRune(text).1])
  {
    var length := Announced(text[0]);
    if length == 0 || |text| < length || !IsCharacter(text[..length]) {
      assert EncodeRune(RUNE_ERROR) == [0xef, 0xbf, 0xbd];
      assert text[..1][0] == text[0];
    } else if length == 2 {
      DecodeTwo(text);
    } else if length == 3 {
      DecodeThree(text);
    } else if length == 4 {
      DecodeFour(text);
    } else {
      assert text[..1] == [text[0]];
    }
  }

  /** How many bytes the first rune of a text takes. */
  function FirstWidth(text: seq<Byte>): (width: nat)
    requires text != []
    ensures 1 <= width <= |text|
  {
    DecodeRune(text).1
  }

  /** The first rune of a text, encoded again. */
  function FirstCharacter(text: seq<Byte>): (character: seq<Byte>)
    requires text != []
    ensures IsCharacter(character)
    ensures IsCharacter(text[..FirstWidth(text)]) ==> character == text[..FirstWidth(text)]
  {
    DecodedRune(text);
    EncodeRune(DecodeRune(text).0)
  }

  /** The message with every malformed byte replaced: range over the string, append each rune. */
  function Sanitised(message: seq<Byte>): seq<Byte>
    decreases |message|
  {
    if message == [] then [] else FirstCharacter(message) + Sanitised(message[FirstWidth(message)..])
  }

  // ----- Characters never overlap -----

  lemma {:induction false} FlattenConcat(left: seq<seq<Byte>>, right: seq<seq<Byte>>)
    ensures Flatten(left + right) == Flatten(left) + Flatten(right)
    decreases |right|
  {
    if right == [] {
      assert left + right == left;
    } else {
      FlattenConcat(left, right[..|right| - 1]);
      var initial, final := right[..|right| - 1], right[|right| - 1];
      assert (left + right)[..|left + right| - 1] == left + initial;
      assert Flatten(left) + (Flatten(initial) + final) == (Flatten(left) + Flatten(initial)) + final;
    }
  }

  lemma FlattenNone(characters: seq<seq<Byte>>)
    ensures characters == [] ==> Flatten(characters) == []
  {
  }

  lemma FlattenOne(character: seq<Byte>)
    ensures Flatten([character]) == character
  {
    var one := [character];
    assert one[..0] == [];
  }

  lemma FlattenFirst(characters: seq<seq<Byte>>)
    requires characters != []
    ensures Flatten(characters) == characters[0] + Flatten(characters[1..])
  {
    FlattenConcat([characters[0]], characters[1..]);
    assert characters == [characters[0]] + characters[1..];
    FlattenOne(characters[0]);
  }

  /** Two character sequences, one text a prefix of the other: the characters are a prefix too. */
  lemma {:induction false} CharactersArePrefixes(shorter: seq<seq<Byte>>, longer: seq<seq<Byte>>)
    requires AreCharacters(shorter) && AreCharacters(longer) && Flatten(shorter) <= Flatten(longer)
    ensures shorter <= longer
    decreases |shorter|
  {
    if shorter != [] {
      FlattenFirst(shorter);
      var first := shorter[0];
      assert Flatten(longer)[0] == Flatten(shorter)[0] == first[0];
      assert longer != [];
      FlattenFirst(longer);
      var other := longer[0];
      assert other[0] == first[0];
      assert first == Flatten(longer)[..|first|] && other == Flatten(longer)[..|first|];
      assert Flatten(shorter[1..]) == Flatten(shorter)[|first|..];
      assert Flatten(longer[1..]) == Flatten(longer)[|first|..];
      CharactersArePrefixes(shorter[1..], longer[1..]);
      assert shorter == [first] + shorter[1..] && longer == [first] + longer[1..];
    }
  }

  lemma {:induction false} SanitisedIsValid(message: seq<Byte>) returns (characters: seq<seq<Byte>>)
    ensures AreCharacters(characters) && Flatten(characters) == Sanitised(message)
    decreases |message|
  {
    hide FirstWidth, FirstCharacter, IsCharacter;
    if message == [] {
      characters := [];
    } else {
      var rest := SanitisedIsValid(message[FirstWidth(message)..]);
      characters := [FirstCharacter(message)] + rest;
      hide Flatten;
      FlattenFirst(characters);
      assert characters[1..] == rest;
    }
  }

  /** Valid text is left alone, which is why the fast path agrees with the loop. */
  lemma {:induction false} ValidIsUnchanged(characters: seq<seq<Byte>>)
    requires AreCharacters(characters)
    ensures Sanitised(Flatten(characters)) == Flatten(characters)
    decreases |characters|
  {
    if characters != [] {
      hide FirstWidth, FirstCharacter, IsCharacter, Flatten;
      FlattenFirst(characters);
      var text, first := Flatten(characters), characters[0];
      assert text[..|first|] == first && text[|first|..] == Flatten(characters[1..]);
      CharacterNotEmpty(first);
      WidthOfCharacter(text, first);
      ValidIsUnchanged(characters[1..]);
    }
  }

  lemma CharacterNotEmpty(character: seq<Byte>)
    requires IsCharacter(character)
    ensures character != []
  {
  }

  /** Exactly the valid texts are unchanged. */
  lemma UnchangedIffValid(message: seq<Byte>)
    ensures Sanitised(message) == message <==> ValidUtf8(message)
  {
    if ValidUtf8(message) {
      var characters :| AreCharacters(characters) && Flatten(characters) == message;
      ValidIsUnchanged(characters);
    }
    if Sanitised(message) == message {
      var characters := SanitisedIsValid(message);
    }
  }

  // ----- The algorithm -----

  /** The longest prefix of a valid text that is valid and fits. */
  ghost predicate IsLongestFit(bounded: seq<Byte>, clean: seq<Byte>)
  {
    && bounded <= clean
    && ValidUtf8(bounded)
    && |bounded| <= MAX_FAILURE_MESSAGE_BYTES
    && forall length ::
      |bounded| < length <= |clean| && length <= MAX_FAILURE_MESSAGE_BYTES ==> !ValidUtf8(clean[..length])
  }

  /** The next character does not fit, so nothing longer does. */
  lemma NothingLongerFits(kept: seq<seq<Byte>>, next: seq<Byte>, rest: seq<seq<Byte>>, clean: seq<Byte>, length: nat)
    requires AreCharacters(kept) && IsCharacter(next) && AreCharacters(rest)
    requires clean == Flatten(kept + ([next] + rest)) && |Flatten(kept)| + |next| > MAX_FAILURE_MESSAGE_BYTES
    requires length <= |clean| && length <= MAX_FAILURE_MESSAGE_BYTES && ValidUtf8(clean[..length])
    ensures length <= |Flatten(kept)|
  {
    var characters :| AreCharacters(characters) && Flatten(characters) == clean[..length];
    hide IsCharacter, Flatten;
    CharactersArePrefixes(characters, kept + ([next] + rest));
    if |characters| <= |kept| {
      PrefixIsShorter(characters, kept);
    } else {
      assert kept + [next] <= characters;
      PrefixIsShorter(kept + [next], characters);
      FlattenConcat(kept, [next]);
      FlattenOne(next);
    }
  }

  lemma PrefixIsShorter(shorter: seq<seq<Byte>>, longer: seq<seq<Byte>>)
    requires shorter <= longer
    ensures |Flatten(shorter)| <= |Flatten(longer)|
  {
    FlattenConcat(shorter, longer[|shorter|..]);
    assert longer == shorter + longer[|shorter|..];
  }

  /** One more character of the message is kept. */
  lemma KeepCharacter(message: seq<Byte>, kept: seq<seq<Byte>>, encoded: seq<Byte>, rest: seq<Byte>)
    requires Flatten(kept) + (encoded + Sanitised(rest)) == Sanitised(message)
    ensures Flatten(kept + [encoded]) == Flatten(kept) + encoded
    ensures Flatten(kept + [encoded]) + Sanitised(rest) == Sanitised(message)
  {
    hide Flatten, Sanitised;
    FlattenConcat(kept, [encoded]);
    FlattenOne(encoded);
    ConcatIsAssociative(Flatten(kept), encoded, Sanitised(rest));
  }

  /** The loop of boundedFailureMessage. */
  method BoundRunes(message: seq<Byte>) returns (bounded: seq<Byte>, isTruncated: bool)
    ensures IsLongestFit(bounded, Sanitised(message))
    ensures isTruncated ==> |Sanitised(message)| > MAX_FAILURE_MESSAGE_BYTES
    ensures !isTruncated ==> bounded == Sanitised(message)
  {
    hide DecodeRune, EncodeRune, IsCharacter, ValidUtf8, IsLongestFit, Sanitised, Flatten;
    bounded := [];
    var remaining := message;
    ghost var kept: seq<seq<Byte>> := [];
    FlattenNone(kept);
    while remaining != []
      invariant AreCharacters(kept) && Flatten(kept) == bounded
      invariant Flatten(kept) + Sanitised(remaining) == Sanitised(message)
      invariant |bounded| <= MAX_FAILURE_MESSAGE_BYTES
      decreases |remaining|
    {
      SanitisedStep(remaining);
      var (runeValue, runeBytes) := DecodeRune(remaining);
      var encoded := EncodeRune(runeValue);
      if |bounded| + |encoded| > MAX_FAILURE_MESSAGE_BYTES {
        TruncationIsLongest(message, kept, encoded, remaining[runeBytes..]);
        return bounded, true;
      }
      KeepCharacter(message, kept, encoded, remaining[runeBytes..]);
      kept := kept + [encoded];
      bounded := bounded + encoded;
      remaining := remaining[runeBytes..];
    }
    isTruncated := false;
    SanitisedNone(remaining);
    assert Flatten(kept) + Sanitised(remaining) == Flatten(kept);
    WholeIsLongest(kept);
  }

  method BoundedFailureMessage(message: seq<Byte>) returns (bounded: seq<Byte>, isTruncated: bool)
    ensures IsLongestFit(bounded, Sanitised(message))
    ensures isTruncated <==> |Sanitised(message)| > MAX_FAILURE_MESSAGE_BYTES
    ensures !isTruncated ==> bounded == Sanitised(message)
    ensures |message| <= MAX_FAILURE_MESSAGE_BYTES && ValidUtf8(message) ==> bounded == message && !isTruncated
  {
    UnchangedIffValid(message);
    var isValid := IsValidString(message);
    ghost var all := SanitisedIsValid(message);
    hide ValidUtf8;
    if |message| <= MAX_FAILURE_MESSAGE_BYTES && isValid {
      WholeIsLongest(all);
      return message, false;
    }
    bounded, isTruncated := BoundRunes(message);
  }

  lemma SanitisedStep(text: seq<Byte>)
    requires text != []
    ensures IsScalar(DecodeRune(text).0) && IsCharacter(EncodeRune(DecodeRune(text).0))
    ensures Sanitised(text) == EncodeRune(DecodeRune(text).0) + Sanitised(text[DecodeRune(text).1..])
  {
    DecodedRune(text);
  }

  lemma SanitisedNone(text: seq<Byte>)
    ensures text == [] ==> Sanitised(text) == []
  {
  }

  lemma WholeIsLongest(characters: seq<seq<Byte>>)
    requires AreCharacters(characters) && |Flatten(characters)| <= MAX_FAILURE_MESSAGE_BYTES
    ensures IsLongestFit(Flatten(characters), Flatten(characters))
  {
  }

  lemma TruncationIsLongest(message: seq<Byte>, kept: seq<seq<Byte>>, next: seq<Byte>, remaining: seq<Byte>)
    requires AreCharacters(kept) && IsCharacter(next) &&
      |Flatten(kept)| <= MAX_FAILURE_MESSAGE_BYTES < |Flatten(kept)| + |next|
    requires Sanitised(message) == Flatten(kept) + (next + Sanitised(remaining))
    ensures IsLongestFit(Flatten(kept), Sanitised(message))
  {
    assert ValidUtf8(Flatten(kept));
    hide IsCharacter, Flatten, Sanitised, ValidUtf8;
    var rest := SanitisedIsValid(remaining);
    FlattenConcat(kept, [next] + rest);
    FlattenFirst([next] + rest);
    assert ([next] + rest)[1..] == rest;
    var clean := Sanitised(message);
    forall length | |Flatten(kept)| < length <= |clean| && length <= MAX_FAILURE_MESSAGE_BYTES
      ensures !ValidUtf8(clean[..length])
    {
      if ValidUtf8(clean[..length]) {
        NothingLongerFits(kept, next, rest, clean, length);
      }
    }
  }

  /** utf8.ValidString: no rune decodes as a malformed byte. */
  method IsValidString(message: seq<Byte>) returns (isValid: bool)
    ensures isValid <==> ValidUtf8(message)
  {
    var remaining := message;
    ghost var read: seq<seq<Byte>> := [];
    while remaining != []
      invariant AreCharacters(read) && Flatten(read) + remaining == message
      decreases |remaining|
    {
      var width := DecodeRune(remaining).1;
      if !IsCharacter(remaining[..width]) {
        MalformedIsInvalid(read, remaining);
        return false;
      }
      assert (read + [remaining[..width]])[..|read|] == read;
      read := read + [remaining[..width]];
      remaining := remaining[width..];
    }
    isValid := true;
  }

  lemma MalformedIsInvalid(read: seq<seq<Byte>>, remaining: seq<Byte>)
    requires AreCharacters(read) && remaining != [] && !IsCharacter(remaining[..FirstWidth(remaining)])
    ensures !ValidUtf8(Flatten(read) + remaining)
  {
    hide FirstWidth, IsCharacter, Flatten;
    var text := Flatten(read) + remaining;
    if ValidUtf8(text) {
      var characters :| AreCharacters(characters) && Flatten(characters) == text;
      CharactersArePrefixes(read, characters);
      var rest := characters[|read|..];
      assert characters == read + rest;
      FlattenConcat(read, rest);
      assert text[|Flatten(read)|..] == remaining && text[|Flatten(read)|..] == Flatten(rest);
      assert rest != [] by {
        FlattenNone(rest);
      }
      FlattenFirst(rest);
      assert remaining[..|rest[0]|] == rest[0];
      WidthOfCharacter(remaining, rest[0]);
    }
  }

  lemma WidthOfCharacter(text: seq<Byte>, character: seq<Byte>)
    requires text != [] && IsCharacter(character) && character <= text
    ensures FirstWidth(text) == |character|
  {
    assert text[..|character|] == character;
  }

  const REPLACEMENT: seq<Byte> := [0xef, 0xbf, 0xbd]

  lemma SanitisedCharacter(text: seq<Byte>, character: seq<Byte>)
    requires text != [] && IsCharacter(character) && character <= text
    ensures Sanitised(text) == character + Sanitised(text[|character|..])
  {
    SanitisedStep(text);
    DecodedRune(text);
    WidthOfCharacter(text, character);
    assert text[..|character|] == character;
    hide Sanitised, EncodeRune, IsCharacter;
  }

  lemma SanitisedMalformed(text: seq<Byte>)
    requires text != [] && !IsCharacter(text[..FirstWidth(text)])
    ensures Sanitised(text) == REPLACEMENT + Sanitised(text[1..])
  {
    SanitisedStep(text);
    DecodedRune(text);
    EncodedReplacement();
    hide Sanitised, EncodeRune;
  }

  /** Sanitising keeps each whole character and replaces each byte that starts none. */
  lemma SanitisedByCharacter(text: seq<Byte>, character: seq<Byte>)
    requires text != []
    ensures IsCharacter(character) && character <= text ==>
      Sanitised(text) == character + Sanitised(text[|character|..])
    ensures (forall n :: 1 <= n <= |text| ==> !IsCharacter(text[..n])) ==>
      Sanitised(text) == REPLACEMENT + Sanitised(text[1..])
  {
    hide Sanitised, IsCharacter, FirstWidth;
    if IsCharacter(character) && character <= text {
      SanitisedCharacter(text, character);
    }
    if forall n :: 1 <= n <= |text| ==> !IsCharacter(text[..n]) {
      SanitisedMalformed(text);
    }
  }

  lemma EncodedReplacement()
    ensures EncodeRune(RUNE_ERROR) == REPLACEMENT
  {
  }

  lemma EncodeTwo(rune: int)
    requires 0x80 <= rune < 0x800
    ensures IsCharacter(EncodeRune(rune))
  {
  }

  lemma EncodeThree(rune: int)
    requires 0x800 <= rune < 0x10000 && IsScalar(rune)
    ensures IsCharacter(EncodeRune(rune))
  {
    var bytes := EncodeRune(rune);
    assert rune == rune / 0x1000 * 0x1000 + rune % 0x1000 && rune % 0x1000 / 0x40 == rune / 0x40 % 0x40;
  }

  lemma EncodeFour(rune: int)
    requires 0x10000 <= rune <= 0x10ffff
    ensures IsCharacter(EncodeRune(rune))
  {
    assert rune == rune / 0x40000 * 0x40000 + rune % 0x40000 && rune % 0x40000 / 0x1000 == rune / 0x1000 % 0x40;
  }

  /** The characters of the grammar are exactly the encodings of the Unicode scalar values. */
  lemma CharacterIffEncoded(bytes: seq<Byte>)
    ensures IsCharacter(bytes) <==> exists rune :: IsScalar(rune) && EncodeRune(rune) == bytes
  {
    hide EncodeRune;
    if IsCharacter(bytes) {
      DecodedRune(bytes);
      WidthOfCharacter(bytes, bytes);
      assert bytes[..|bytes|] == bytes;
    }
    if rune :| IsScalar(rune) && EncodeRune(rune) == bytes {
      ScalarEncodes(rune);
    }
  }

  lemma ScalarEncodes(rune: int)
    requires IsScalar(rune)
    ensures IsCharacter(EncodeRune(rune))
  {
    if 0x80 <= rune < 0x800 {
      EncodeTwo(rune);
    } else if 0x800 <= rune < 0x10000 {
      EncodeThree(rune);
    } else if rune >= 0x10000 {
      EncodeFour(rune);
    }
  }
}
