/** The timestamp pattern of generated TypeScript models, and its canonical form. */
module GoTimestamps {
  import opened Wrappers
  import opened Texts
  import opened Numerals

  datatype Clock = Clock(year: string, month: string, day: string, hour: string, minute: string, second: string)
  datatype Fraction = NoFraction | Fraction(separator: char, digits: string)
  datatype Zone = Utc | Offset(sign: char, hour: string, minute: string)
  datatype Match = Match(clock: Clock, fraction: Fraction, zone: Zone)

  // ----- The texts of goTimeJSONPattern -----

  predicate IsNumeral(text: string, length: nat)
  {
    |text| == length && AreDigits(text)
  }

  predicate IsClock(clock: Clock)
  {
    && IsNumeral(clock.year, 4) && IsNumeral(clock.month, 2) && IsNumeral(clock.day, 2)
    && (IsNumeral(clock.hour, 1) || IsNumeral(clock.hour, 2))
    && IsNumeral(clock.minute, 2) && IsNumeral(clock.second, 2)
  }

  predicate IsFraction(fraction: Fraction)
  {
    fraction.Fraction? ==> fraction.separator in ".," && fraction.digits != [] && AreDigits(fraction.digits)
  }

  predicate IsZone(zone: Zone)
  {
    zone.Offset? ==> zone.sign in "+-" && IsNumeral(zone.hour, 2) && IsNumeral(zone.minute, 2)
  }

  predicate IsMatch(parts: Match)
  {
    IsClock(parts.clock) && IsFraction(parts.fraction) && IsZone(parts.zone)
  }

  function RenderTime(clock: Clock, rest: string): string
  {
    clock.hour + [':'] + (clock.minute + [':'] + (clock.second + rest))
  }

  function RenderClock(clock: Clock, rest: string): string
  {
    clock.year + ['-'] + (clock.month + ['-'] + (clock.day + ['T'] + RenderTime(clock, rest)))
  }

  function RenderFraction(fraction: Fraction): string
  {
    if fraction.NoFraction? then "" else [fraction.separator] + fraction.digits
  }

  function RenderZone(zone: Zone): string
  {
    if zone.Utc? then "Z" else [zone.sign] + zone.hour + [':'] + zone.minute
  }

  function Render(parts: Match): string
  {
    RenderClock(parts.clock, RenderFraction(parts.fraction) + RenderZone(parts.zone))
  }

  // ----- goTimeJSONPattern.exec -----

  /** A numeral of the given length and the text after it. */
  function Numeral(text: string, length: nat): Option<(string, string)>
  {
    if length <= |text| && AreDigits(text[..length]) then Some((text[..length], text[length..])) else None
  }

  /** A numeral of the given length, the character c, and the text after both. */
  function NumeralThen(text: string, length: nat, c: char): Option<(string, string)>
  {
    if length < |text| && AreDigits(text[..length]) && text[length] == c then Some((text[..length], text[length + 1..]))
      else None
  }

  function ExecTime(year: string, month: string, day: string, text: string): Option<(Clock, string)>
  {
    var long := NumeralThen(text, 2, ':');
    var hour := if long.Some? then long else NumeralThen(text, 1, ':');
    if hour.None? then None else
    var minute := NumeralThen(hour.value.1, 2, ':');
    if minute.None? then None else
    var second := Numeral(minute.value.1, 2);
    if second.None? then None else
    Some((Clock(year, month, day, hour.value.0, minute.value.0, second.value.0), second.value.1))
  }

  function ExecClock(text: string): Option<(Clock, string)>
  {
    var year := NumeralThen(text, 4, '-');
    if year.None? then None else
    var month := NumeralThen(year.value.1, 2, '-');
    if month.None? then None else
    var day := NumeralThen(month.value.1, 2, 'T');
    if day.None? then None else
    ExecTime(year.value.0, month.value.0, day.value.0, day.value.1)
  }

  function DigitCount(text: string): (count: nat)
    ensures count <= |text| && AreDigits(text[..count]) && (count < |text| ==> !IsDigit(text[count]))
  {
    if text == [] || !IsDigit(text[0]) then 0
    else
      var count := 1 + DigitCount(text[1..]);
      assert forall i :: 0 < i < count ==> text[i] == text[1..][i - 1];
      count
  }

  function ExecFraction(text: string): Option<(Fraction, string)>
  {
    if text == [] || text[0] !in ".," then Some((NoFraction, text))
    else
      var count := DigitCount(text[1..]);
      if count == 0 then None else Some((Fraction(text[0], text[1..count + 1]), text[count + 1..]))
  }

  function ExecZone(text: string): Option<Zone>
  {
    if text == "Z" then Some(Utc)
    else if text == [] || text[0] !in "+-" then None
    else
      var hour := NumeralThen(text[1..], 2, ':');
      if hour.None? || !IsNumeral(hour.value.1, 2) then None else Some(Offset(text[0], hour.value.0, hour.value.1))
  }

  function Exec(value: string): Option<Match>
  {
    var clock := ExecClock(value);
    if clock.None? then None else
    var fraction := ExecFraction(clock.value.1);
    if fraction.None? then None else
    var zone := ExecZone(fraction.value.1);
    if zone.None? then None else
    Some(Match(clock.value.0, fraction.value.0, zone.value))
  }

  // ----- exec matches exactly the rendered texts -----

  lemma NumeralThenIff(text: string, length: nat, c: char, digits: string, rest: string)
    ensures NumeralThen(text, length, c) == Some((digits, rest)) <==>
      (IsNumeral(digits, length) && text == digits + [c] + rest)
  {
    if IsNumeral(digits, length) && text == digits + [c] + rest {
      assert text[..length] == digits && text[length + 1..] == rest;
    }
    if NumeralThen(text, length, c).Some? {
      assert text == text[..length] + [c] + text[length + 1..];
    }
  }

  lemma NumeralIff(text: string, length: nat, digits: string, rest: string)
    ensures Numeral(text, length) == Some((digits, rest)) <==> (IsNumeral(digits, length) && text == digits + rest)
  {
    if IsNumeral(digits, length) && text == digits + rest {
      assert text[..length] == digits && text[length..] == rest;
    }
    if Numeral(text, length).Some? {
      assert text == text[..length] + text[length..];
    }
  }

  lemma TimeSound(year: string, month: string, day: string, text: string)
    ensures var time := ExecTime(year, month, day, text);
      time.Some? ==>
      var clock := time.value.0;
      && clock.year == year && clock.month == month && clock.day == day
      && (IsNumeral(clock.hour, 1) || IsNumeral(clock.hour, 2)) && IsNumeral(clock.minute, 2) &&
        IsNumeral(clock.second, 2)
      && text == RenderTime(clock, time.value.1)
  {
    hide NumeralThen, Numeral, IsNumeral;
    var long := NumeralThen(text, 2, ':');
    var hour := if long.Some? then long else NumeralThen(text, 1, ':');
    if hour.Some? {
      NumeralThenIff(text, 2, ':', hour.value.0, hour.value.1);
      NumeralThenIff(text, 1, ':', hour.value.0, hour.value.1);
      var minute := NumeralThen(hour.value.1, 2, ':');
      if minute.Some? {
        NumeralThenIff(hour.value.1, 2, ':', minute.value.0, minute.value.1);
        var second := Numeral(minute.value.1, 2);
        if second.Some? {
          NumeralIff(minute.value.1, 2, second.value.0, second.value.1);
        }
      }
    }
  }

  lemma ClockSound(text: string)
    ensures var clock := ExecClock(text);
      clock.Some? ==> IsClock(clock.value.0) && text == RenderClock(clock.value.0, clock.value.1)
  {
    hide NumeralThen, Numeral, IsNumeral, ExecTime, RenderTime;
    var year := NumeralThen(text, 4, '-');
    if year.Some? {
      NumeralThenIff(text, 4, '-', year.value.0, year.value.1);
      var month := NumeralThen(year.value.1, 2, '-');
      if month.Some? {
        NumeralThenIff(year.value.1, 2, '-', month.value.0, month.value.1);
        var day := NumeralThen(month.value.1, 2, 'T');
        if day.Some? {
          NumeralThenIff(month.value.1, 2, 'T', day.value.0, day.value.1);
          TimeSound(year.value.0, month.value.0, day.value.0, day.value.1);
        }
      }
    }
  }

  lemma TimeComplete(clock: Clock, rest: string)
    requires IsClock(clock)
    ensures ExecTime(clock.year, clock.month, clock.day, RenderTime(clock, rest)) == Some((clock, rest))
  {
    var text := RenderTime(clock, rest);
    var afterMinute := clock.second + rest;
    var afterHour := clock.minute + [':'] + afterMinute;
    hide NumeralThen, Numeral;
    NumeralThenIff(text, |clock.hour|, ':', clock.hour, afterHour);
    OneDigitOnly(text, clock.hour, afterHour);
    NumeralThenIff(afterHour, 2, ':', clock.minute, afterMinute);
    NumeralIff(afterMinute, 2, clock.second, rest);
  }

  lemma OneDigitOnly(text: string, hour: string, rest: string)
    requires text == hour + [':'] + rest
    ensures |hour| == 1 ==> NumeralThen(text, 2, ':').None?
  {
    if |hour| == 1 && |text| >= 2 {
      assert text[..2][1] == ':';
    }
  }

  lemma ClockComplete(clock: Clock, rest: string)
    requires IsClock(clock)
    ensures ExecClock(RenderClock(clock, rest)) == Some((clock, rest))
  {
    hide NumeralThen, Numeral, ExecTime, RenderTime;
    var time := RenderTime(clock, rest);
    var afterMonth := clock.day + ['T'] + time;
    var afterYear := clock.month + ['-'] + afterMonth;
    TimeComplete(clock, rest);
    NumeralThenIff(afterMonth, 2, 'T', clock.day, time);
    NumeralThenIff(afterYear, 2, '-', clock.month, afterMonth);
    NumeralThenIff(RenderClock(clock, rest), 4, '-', clock.year, afterYear);
  }

  lemma FractionSound(text: string)
    ensures var fraction := ExecFraction(text);
      fraction.Some? ==> IsFraction(fraction.value.0) && text == RenderFraction(fraction.value.0) + fraction.value.1
  {
    if text != [] && text[0] in ".," {
      var count := DigitCount(text[1..]);
      assert text[1..count + 1] == text[1..][..count];
      assert text == [text[0]] + text[1..count + 1] + text[count + 1..];
    } else {
      assert text == "" + text;
    }
  }

  lemma {:induction false} DigitCountOf(digits: string, rest: string)
    requires AreDigits(digits) && rest != [] && !IsDigit(rest[0])
    ensures DigitCount(digits + rest) == |digits|
  {
    var text := digits + rest;
    if digits != [] {
      assert text[1..] == digits[1..] + rest && IsDigit(digits[0]);
      DigitCountOf(digits[1..], rest);
    }
  }

  lemma FractionComplete(fraction: Fraction, rest: string)
    requires IsFraction(fraction) && rest != [] && rest[0] in "Z+-"
    ensures ExecFraction(RenderFraction(fraction) + rest) == Some((fraction, rest))
  {
    var text := RenderFraction(fraction) + rest;
    if fraction.Fraction? {
      assert text[1..] == fraction.digits + rest;
      DigitCountOf(fraction.digits, rest);
      assert text[1..|fraction.digits| + 1] == fraction.digits && text[|fraction.digits| + 1..] == rest;
    } else {
      assert text == rest;
    }
  }

  lemma ZoneIff(text: string, zone: Zone)
    ensures ExecZone(text) == Some(zone) <==> (IsZone(zone) && text == RenderZone(zone))
  {
    hide NumeralThen;
    if ExecZone(text) == Some(zone) && zone.Offset? {
      NumeralThenIff(text[1..], 2, ':', zone.hour, zone.minute);
      assert text == [text[0]] + text[1..];
    }
    if IsZone(zone) && text == RenderZone(zone) && zone.Offset? {
      assert text[1..] == zone.hour + [':'] + zone.minute;
      NumeralThenIff(text[1..], 2, ':', zone.hour, zone.minute);
    }
  }

  /** The pattern matches a text with these groups exactly when the groups spell the text. */
  lemma ExecIffRendered(value: string, parts: Match)
    ensures Exec(value) == Some(parts) <==> (IsMatch(parts) && value == Render(parts))
  {
    hide ExecClock, ExecFraction, ExecZone, RenderClock, RenderFraction, RenderZone, IsClock, IsFraction, IsZone;
    if Exec(value) == Some(parts) {
      ClockSound(value);
      var afterClock := ExecClock(value).value.1;
      FractionSound(afterClock);
      ZoneIff(ExecFraction(afterClock).value.1, parts.zone);
    }
    if IsMatch(parts) && value == Render(parts) {
      var zone := RenderZone(parts.zone);
      ClockComplete(parts.clock, RenderFraction(parts.fraction) + zone);
      ZoneStart(parts.zone);
      FractionComplete(parts.fraction, zone);
      ZoneIff(zone, parts.zone);
    }
  }

  lemma ZoneStart(zone: Zone)
    requires IsZone(zone)
    ensures RenderZone(zone) != [] && RenderZone(zone)[0] in "Z+-"
  {
  }

  // ----- isGoTimeJSON -----

  predicate IsLeap(year: nat)
  {
    year % 4 == 0 && (year % 100 != 0 || year % 400 == 0)
  }

  function DaysInMonth(year: nat, month: nat): nat
    requires 1 <= month <= 12
  {
    [31, if IsLeap(year) then 29 else 28, 31, 30, 31, 30, 31, 31, 30, 31, 30, 31][month - 1]
  }

  predicate IsCivil(year: nat, month: nat, day: nat, hour: nat, minute: nat, second: nat)
  {
    1 <= month <= 12 && 1 <= day <= DaysInMonth(year, month) && hour <= 23 && minute <= 59 && second <= 59
  }

  predicate IsGoTimeMatch(parts: Match)
    requires IsMatch(parts)
  {
    var clock := parts.clock;
    && IsCivil(NumberValue(clock.year), NumberValue(clock.month), NumberValue(clock.day),
               NumberValue(clock.hour), NumberValue(clock.minute), NumberValue(clock.second))
    && (parts.zone.Offset? ==> NumberValue(parts.zone.hour) <= 24 && NumberValue(parts.zone.minute) <= 60)
  }

  predicate IsGoTimeJSON(value: string)
  {
    var parts := Exec(value);
    parts.Some? && (ExecIffRendered(value, parts.value); IsGoTimeMatch(parts.value))
  }

  // ----- canonicalGoTimeJSON -----

  /** padStart(2, '0') */
  function PadStart(text: string): string
    decreases 2 - |text|
  {
    if |text| >= 2 then text else PadStart(['0'] + text)
  }

  function StripZeros(digits: string): string
  {
    if digits != [] && digits[|digits| - 1] == '0' then StripZeros(digits[..|digits| - 1]) else digits
  }

  function Nine(digits: string): string
  {
    if |digits| <= 9 then digits else digits[..9]
  }

  function OffsetMinutes(zone: Zone): int
    requires IsZone(zone)
  {
    if zone.Utc? then 0
    else (NumberValue(zone.hour) * 60 + NumberValue(zone.minute)) * (if zone.sign == '+' then 1 else -1)
  }

  function Magnitude(offset: int): nat
  {
    if offset < 0 then -offset else offset
  }

  function CanonicalZone(offset: int): Zone
  {
    if offset == 0 then Utc
    else Offset(if offset > 0 then '+' else '-',
      PadStart(RenderNumber(Magnitude(offset) / 60)), PadStart(RenderNumber(Magnitude(offset) % 60)))
  }

  function FractionDigits(fraction: Fraction): string
  {
    if fraction.NoFraction? then "" else fraction.digits
  }

  function CanonicalFraction(fraction: Fraction): Fraction
  {
    var digits := StripZeros(Nine(FractionDigits(fraction)));
    if digits == "" then NoFraction else Fraction('.', digits)
  }

  function CanonicalMatch(parts: Match): Match
    requires IsMatch(parts)
  {
    Match(parts.clock.(hour := PadStart(parts.clock.hour)), CanonicalFraction(parts.fraction),
      CanonicalZone(OffsetMinutes(parts.zone)))
  }

  function CanonicalGoTimeJSON(value: string): string
    requires Exec(value).Some?
  {
    var parts := Exec(value).value;
    ExecIffRendered(value, parts);
    if Magnitude(OffsetMinutes(parts.zone)) >= 1440 then value else Render(CanonicalMatch(parts))
  }

  // ----- What a timestamp means -----

  datatype Instant = Instant(
    year: nat, month: nat, day: nat, hour: nat, minute: nat, second: nat, nanoseconds: nat, offsetMinutes: int)

  /** The first nine digits, as a number of nanoseconds. */
  function PadNine(digits: string): (padded: string)
    requires |digits| <= 9
    ensures |padded| == 9
    decreases 9 - |digits|
  {
    if |digits| == 9 then digits else PadNine(digits + ['0'])
  }

  lemma {:induction false} PadNineIsDigits(digits: string)
    requires |digits| <= 9 && AreDigits(digits)
    ensures AreDigits(PadNine(digits))
    decreases 9 - |digits|
  {
    if |digits| < 9 {
      PadNineIsDigits(digits + ['0']);
    }
  }

  function Nanoseconds(fraction: Fraction): nat
    requires IsFraction(fraction)
  {
    var digits := Nine(FractionDigits(fraction));
    PadNineIsDigits(digits);
    NumberValue(PadNine(digits))
  }

  function MeaningOf(parts: Match): Instant
    requires IsMatch(parts)
  {
    var clock := parts.clock;
    Instant(NumberValue(clock.year), NumberValue(clock.month), NumberValue(clock.day),
            NumberValue(clock.hour), NumberValue(clock.minute), NumberValue(clock.second),
            Nanoseconds(parts.fraction), OffsetMinutes(parts.zone))
  }

  function Meaning(value: string): Instant
    requires Exec(value).Some?
  {
    ExecIffRendered(value, Exec(value).value);
    MeaningOf(Exec(value).value)
  }

  // ----- The parts of the canonical form -----

  lemma PadKeepsValue(text: string)
    requires IsNumeral(text, 1) || IsNumeral(text, 2)
    ensures IsNumeral(PadStart(text), 2) && NumberValue(PadStart(text)) == NumberValue(text)
  {
    if |text| == 1 {
      var padded := ['0'] + text;
      assert padded[..1] == ['0'] && text[..0] == [];
      assert padded[1] == text[0];
      ZeroValue();
    }
  }

  lemma ZeroValue()
    ensures NumberValue("") == 0 && NumberValue(['0']) == 0
  {
    var zero := ['0'];
    assert zero[..0] == [];
  }

  lemma PaddedNumber(number: nat)
    requires number < 100
    ensures IsNumeral(PadStart(RenderNumber(number)), 2) && NumberValue(PadStart(RenderNumber(number))) == number
  {
    ValueOfRender(number);
    assert |RenderNumber(number)| == if number < 10 then 1 else 2;
    PadKeepsValue(RenderNumber(number));
  }

  /** The canonical zone of an offset within a day has that offset, and Go accepts it. */
  lemma CanonicalZoneKeepsOffset(offset: int)
    requires -1440 < offset < 1440
    ensures var zone := CanonicalZone(offset);
      && IsZone(zone) && OffsetMinutes(zone) == offset
      && (zone.Offset? ==> NumberValue(zone.hour) <= 23 && NumberValue(zone.minute) <= 59)
  {
    PaddedNumber(Magnitude(offset) / 60);
    PaddedNumber(Magnitude(offset) % 60);
  }

  lemma {:induction false} StripIsPrefix(digits: string)
    ensures |StripZeros(digits)| <= |digits| && StripZeros(digits) == digits[..|StripZeros(digits)|]
  {
    if digits != [] && digits[|digits| - 1] == '0' {
      var shorter := digits[..|digits| - 1];
      StripIsPrefix(shorter);
      assert shorter[..|StripZeros(shorter)|] == digits[..|StripZeros(shorter)|];
    } else {
      assert digits == digits[..|digits|];
    }
  }

  /** Trailing zeros are what padding restores. */
  lemma {:induction false} PadOfStripped(digits: string)
    requires |digits| <= 9
    ensures |StripZeros(digits)| <= 9 && PadNine(StripZeros(digits)) == PadNine(digits)
  {
    if digits != [] && digits[|digits| - 1] == '0' {
      var shorter := digits[..|digits| - 1];
      PadOfStripped(shorter);
      assert shorter + ['0'] == digits;
    }
  }

  lemma {:induction false} StripOfPadded(digits: string)
    requires |digits| <= 9
    ensures StripZeros(PadNine(digits)) == StripZeros(digits)
    decreases 9 - |digits|
  {
    if |digits| < 9 {
      StripOfPadded(digits + ['0']);
      assert (digits + ['0'])[..|digits|] == digits;
    }
  }

  lemma CanonicalFractionKeepsNanoseconds(fraction: Fraction)
    requires IsFraction(fraction)
    ensures IsFraction(CanonicalFraction(fraction)) && Nanoseconds(CanonicalFraction(fraction)) == Nanoseconds(fraction)
  {
    var digits := Nine(FractionDigits(fraction));
    StripIsPrefix(digits);
    PadOfStripped(digits);
    assert FractionDigits(CanonicalFraction(fraction)) == StripZeros(digits);
  }

  /** The fraction that is written depends on the nanoseconds alone. */
  lemma NanosecondsDecideFraction(left: Fraction, right: Fraction)
    requires IsFraction(left) && IsFraction(right) && Nanoseconds(left) == Nanoseconds(right)
    ensures CanonicalFraction(left) == CanonicalFraction(right)
  {
    var a, b := Nine(FractionDigits(left)), Nine(FractionDigits(right));
    PadNineIsDigits(a);
    PadNineIsDigits(b);
    ValueIsInjective(PadNine(a), PadNine(b));
    StripOfPadded(a);
    StripOfPadded(b);
  }

  lemma CanonicalMatchKeepsMeaning(parts: Match)
    requires IsMatch(parts) && Magnitude(OffsetMinutes(parts.zone)) < 1440
    ensures IsMatch(CanonicalMatch(parts)) && MeaningOf(CanonicalMatch(parts)) == MeaningOf(parts)
    ensures IsGoTimeMatch(parts) ==> IsGoTimeMatch(CanonicalMatch(parts))
  {
    hide NumberValue, PadStart, CanonicalZone, CanonicalFraction, Nanoseconds, OffsetMinutes, IsFraction, IsNumeral;
    hide DaysInMonth;
    PadKeepsValue(parts.clock.hour);
    CanonicalFractionKeepsNanoseconds(parts.fraction);
    CanonicalZoneKeepsOffset(OffsetMinutes(parts.zone));
  }

  lemma MeaningDecidesMatch(left: Match, right: Match)
    requires IsMatch(left) && IsMatch(right) && MeaningOf(left) == MeaningOf(right)
    ensures CanonicalMatch(left) == CanonicalMatch(right)
  {
    hide NumberValue, PadStart, CanonicalZone, CanonicalFraction, Nanoseconds, OffsetMinutes, IsFraction, IsZone;
    ValueIsInjective(left.clock.year, right.clock.year);
    ValueIsInjective(left.clock.month, right.clock.month);
    ValueIsInjective(left.clock.day, right.clock.day);
    PadKeepsValue(left.clock.hour);
    PadKeepsValue(right.clock.hour);
    ValueIsInjective(PadStart(left.clock.hour), PadStart(right.clock.hour));
    ValueIsInjective(left.clock.minute, right.clock.minute);
    ValueIsInjective(left.clock.second, right.clock.second);
    NanosecondsDecideFraction(left.fraction, right.fraction);
  }

  // ----- Main results -----

  /** Canonicalising matches again and keeps the civil time, the offset in minutes and the nanoseconds. */
  lemma CanonicalKeepsMeaning(value: string)
    requires Exec(value).Some?
    ensures Exec(CanonicalGoTimeJSON(value)).Some? && Meaning(CanonicalGoTimeJSON(value)) == Meaning(value)
    ensures IsGoTimeJSON(value) ==> IsGoTimeJSON(CanonicalGoTimeJSON(value))
  {
    hide Exec, Render, IsMatch, MeaningOf, IsGoTimeMatch, OffsetMinutes, CanonicalMatch;
    var parts := Exec(value).value;
    ExecIffRendered(value, parts);
    assert IsMatch(parts);
    MatchHasZone(parts);
    if Magnitude(OffsetMinutes(parts.zone)) < 1440 {
      CanonicalMatchKeepsMeaning(parts);
      ExecIffRendered(CanonicalGoTimeJSON(value), CanonicalMatch(parts));
    }
  }

  lemma MatchHasZone(parts: Match)
    requires IsMatch(parts)
    ensures IsZone(parts.zone) && MeaningOf(parts).offsetMinutes == OffsetMinutes(parts.zone)
  {
  }

  /** Two timestamps within a day of UTC are written alike exactly when they mean the same. */
  lemma CanonicalIffSameMeaning(left: string, right: string)
    requires Exec(left).Some? && Exec(right).Some?
    requires Magnitude(Meaning(left).offsetMinutes) < 1440 && Magnitude(Meaning(right).offsetMinutes) < 1440
    ensures CanonicalGoTimeJSON(left) == CanonicalGoTimeJSON(right) <==> Meaning(left) == Meaning(right)
  {
    hide Exec, Render, IsMatch, MeaningOf, OffsetMinutes, CanonicalMatch;
    CanonicalKeepsMeaning(left);
    CanonicalKeepsMeaning(right);
    ExecIffRendered(left, Exec(left).value);
    ExecIffRendered(right, Exec(right).value);
    MatchHasZone(Exec(left).value);
    MatchHasZone(Exec(right).value);
    if Meaning(left) == Meaning(right) {
      MeaningDecidesMatch(Exec(left).value, Exec(right).value);
    }
  }

  /** Canonicalising twice is canonicalising once. */
  lemma CanonicalIsIdempotent(value: string)
    requires Exec(value).Some?
    ensures Exec(CanonicalGoTimeJSON(value)).Some?
    ensures CanonicalGoTimeJSON(CanonicalGoTimeJSON(value)) == CanonicalGoTimeJSON(value)
  {
    CanonicalKeepsMeaning(value);
    hide Exec, Render, IsMatch, MeaningOf, OffsetMinutes, CanonicalMatch;
    if Magnitude(Meaning(value).offsetMinutes) < 1440 {
      CanonicalIffSameMeaning(value, CanonicalGoTimeJSON(value));
    } else {
      ExecIffRendered(value, Exec(value).value);
      MatchHasZone(Exec(value).value);
    }
  }

  // ----- What the canonical form is -----

  /** What Go marshals: a two-digit hour, the fewest fraction digits after a dot, and Z for no offset. */
  predicate IsCanonical(parts: Match)
    requires IsMatch(parts)
  {
    && |parts.clock.hour| == 2
    && (parts.fraction.Fraction? <==> Nanoseconds(parts.fraction) != 0)
    && (parts.fraction.Fraction? ==>
          && parts.fraction.separator == '.' && |parts.fraction.digits| <= 9
          && parts.fraction.digits[|parts.fraction.digits| - 1] != '0')
    && (parts.zone.Utc? <==> OffsetMinutes(parts.zone) == 0)
    && (parts.zone.Offset? ==> NumberValue(parts.zone.hour) <= 23 && NumberValue(parts.zone.minute) <= 59)
  }

  lemma {:induction false} StripEndsWell(digits: string)
    ensures var stripped := StripZeros(digits); stripped != "" ==> stripped[|stripped| - 1] != '0'
  {
    if digits != [] && digits[|digits| - 1] == '0' {
      StripEndsWell(digits[..|digits| - 1]);
    }
  }

  lemma {:induction false} PadNineIsZeroIff(digits: string)
    requires |digits| <= 9 && AreDigits(digits) && AreDigits(PadNine(digits))
    ensures NumberValue(PadNine(digits)) == 0 <==> NumberValue(digits) == 0
    decreases 9 - |digits|
  {
    if |digits| < 9 {
      var longer := digits + ['0'];
      assert longer[..|digits|] == digits;
      PadNineIsZeroIff(longer);
    }
  }

  /** A fraction whose last digit is not zero is not zero; no fraction is. */
  lemma FractionIsZeroIff(fraction: Fraction)
    requires IsFraction(fraction)
    ensures fraction.NoFraction? ==> Nanoseconds(fraction) == 0
    ensures fraction.Fraction? && |fraction.digits| <= 9 && fraction.digits[|fraction.digits| - 1] != '0' ==>
      Nanoseconds(fraction) != 0
  {
    var digits := Nine(FractionDigits(fraction));
    PadNineIsDigits(digits);
    PadNineIsZeroIff(digits);
    if fraction.Fraction? && |fraction.digits| <= 9 {
      assert IsDigit(digits[|digits| - 1]);
    }
  }

  lemma CanonicalMatchIsCanonical(parts: Match)
    requires IsMatch(parts) && Magnitude(OffsetMinutes(parts.zone)) < 1440
    ensures IsMatch(CanonicalMatch(parts)) && IsCanonical(CanonicalMatch(parts))
  {
    var digits := Nine(FractionDigits(parts.fraction));
    StripIsPrefix(digits);
    StripEndsWell(digits);
    hide NumberValue, PadStart, Nanoseconds, OffsetMinutes, IsNumeral, StripZeros;
    PadKeepsValue(parts.clock.hour);
    NumeralLength(PadStart(parts.clock.hour));
    CanonicalFractionKeepsNanoseconds(parts.fraction);
    FractionIsZeroIff(CanonicalFraction(parts.fraction));
    CanonicalZoneKeepsOffset(OffsetMinutes(parts.zone));
  }

  lemma NumeralLength(text: string)
    requires IsNumeral(text, 2)
    ensures |text| == 2
  {
  }

  lemma CanonicalZoneIsFixed(zone: Zone)
    requires IsZone(zone) && (zone.Utc? <==> OffsetMinutes(zone) == 0)
    requires zone.Offset? ==> NumberValue(zone.hour) <= 23 && NumberValue(zone.minute) <= 59
    ensures CanonicalZone(OffsetMinutes(zone)) == zone && Magnitude(OffsetMinutes(zone)) < 1440
  {
    if zone.Offset? {
      var hour, minute := NumberValue(zone.hour), NumberValue(zone.minute);
      PaddedNumber(hour);
      PaddedNumber(minute);
      ValueIsInjective(PadStart(RenderNumber(hour)), zone.hour);
      ValueIsInjective(PadStart(RenderNumber(minute)), zone.minute);
      hide NumberValue, PadStart, RenderNumber;
      assert Magnitude(OffsetMinutes(zone)) == hour * 60 + minute;
    }
  }

  lemma CanonicalIsFixed(parts: Match)
    requires IsMatch(parts) && IsCanonical(parts)
    ensures CanonicalMatch(parts) == parts
  {
    hide NumberValue, Nanoseconds, OffsetMinutes;
    CanonicalZoneIsFixed(parts.zone);
  }

  /** Within a day of UTC, the canonical form is the one canonical text with the meaning of the timestamp. */
  lemma CanonicalIsTheOne(value: string, text: string)
    requires Exec(value).Some? && Magnitude(Meaning(value).offsetMinutes) < 1440
    ensures text == CanonicalGoTimeJSON(value) <==>
      (Exec(text).Some? && (ExecIffRendered(text, Exec(text).value); IsCanonical(Exec(text).value)) &&
       Meaning(text) == Meaning(value))
  {
    hide Exec, Render, IsMatch, MeaningOf, OffsetMinutes, CanonicalMatch, IsCanonical;
    var parts := Exec(value).value;
    ExecIffRendered(value, parts);
    MatchHasZone(parts);
    CanonicalKeepsMeaning(value);
    CanonicalMatchIsCanonical(parts);
    ExecIffRendered(CanonicalGoTimeJSON(value), CanonicalMatch(parts));
    if Exec(text).Some? {
      var other := Exec(text).value;
      ExecIffRendered(text, other);
      if IsCanonical(other) && Meaning(text) == Meaning(value) {
        MeaningDecidesMatch(other, parts);
        CanonicalIsFixed(other);
      }
    }
  }

  /** A timestamp a day or more from UTC, which Go cannot marshal, is returned as it is. */
  lemma FarOffsetIsUnchanged(value: string)
    requires Exec(value).Some? && Magnitude(Meaning(value).offsetMinutes) >= 1440
    ensures CanonicalGoTimeJSON(value) == value
  {
    hide Exec, Render, IsMatch, MeaningOf, OffsetMinutes, CanonicalMatch;
    ExecIffRendered(value, Exec(value).value);
    MatchHasZone(Exec(value).value);
  }

  // ----- Which timestamps are accepted -----

  /** The days of all years before this one, in the Gregorian calendar extended to year 0. */
  function DaysBefore(year: nat): nat
  {
    365 * year + (year + 3) / 4 - (year + 99) / 100 + (year + 399) / 400
  }

  function DaysThrough(year: nat, month: nat): nat
    requires month <= 12
  {
    if month == 0 then 0 else DaysThrough(year, month - 1) + DaysInMonth(year, month)
  }

  lemma YearLength(year: nat)
    ensures DaysBefore(year + 1) - DaysBefore(year) == if IsLeap(year) then 366 else 365
  {
    assert (year + 4) / 4 == (year + 3) / 4 + if year % 4 == 0 then 1 else 0;
    assert (year + 100) / 100 == (year + 99) / 100 + if year % 100 == 0 then 1 else 0;
    assert (year + 400) / 400 == (year + 399) / 400 + if year % 400 == 0 then 1 else 0;
    assert year % 400 == 0 ==> year % 100 == 0;
    assert year % 100 == 0 ==> year % 4 == 0;
  }

  lemma MonthLengths(year: nat)
    ensures DaysThrough(year, 12) == 337 + DaysInMonth(year, 2)
  {
    assert DaysThrough(year, 2) == DaysThrough(year, 1) + DaysInMonth(year, 2) && DaysThrough(year, 1) == 31;
    assert DaysThrough(year, 4) == DaysThrough(year, 3) + 30 && DaysThrough(year, 3) == DaysThrough(year, 2) + 31;
    assert DaysThrough(year, 6) == DaysThrough(year, 5) + 30 && DaysThrough(year, 5) == DaysThrough(year, 4) + 31;
    assert DaysThrough(year, 8) == DaysThrough(year, 7) + 31 && DaysThrough(year, 7) == DaysThrough(year, 6) + 31;
    assert DaysThrough(year, 10) == DaysThrough(year, 9) + 31 && DaysThrough(year, 9) == DaysThrough(year, 8) + 30;
    assert DaysThrough(year, 12) == DaysThrough(year, 11) + 31 && DaysThrough(year, 11) == DaysThrough(year, 10) + 30;
  }

  /** The month lengths of every year add up to the year's length in the calendar's cycle of 4, 100 and 400 years. */
  lemma MonthsFillTheYear(year: nat)
    ensures DaysThrough(year, 12) == DaysBefore(year + 1) - DaysBefore(year)
  {
    hide DaysThrough, DaysBefore;
    MonthLengths(year);
    YearLength(year);
  }

  /** A text is accepted exactly when the pattern matches it and it names an existing day, a time of that day and an
      offset that Go can read. */
  lemma AcceptedIffExists(value: string)
    ensures IsGoTimeJSON(value) <==>
      (Exec(value).Some? &&
       var instant := Meaning(value);
       && 1 <= instant.month <= 12 && 1 <= instant.day <= DaysInMonth(instant.year, instant.month)
       && instant.hour < 24 && instant.minute < 60 && instant.second < 60
       && (Exec(value).value.zone.Utc? || HasReadableOffset(Exec(value).value.zone)))
  {
    hide Exec;
    if Exec(value).Some? {
      ExecIffRendered(value, Exec(value).value);
    }
  }

  /** Go reads offset hours through 24 and offset minutes through 60. */
  predicate HasReadableOffset(zone: Zone)
  {
    zone.Offset? && AreDigits(zone.hour) && NumberValue(zone.hour) <= 24 && AreDigits(zone.minute) &&
      NumberValue(zone.minute) <= 60
  }
}
