/** Decimal numerals and their values. */
module Numerals {
  import opened Texts

  predicate AreDigits(text: string)
  {
    forall i :: 0 <= i < |text| ==> IsDigit(text[i])
  }

  /** (0|[1-9][0-9]*) */
  predicate IsCanonicalNumber(digits: string)
  {
    digits != [] && (digits[0] != '0' || |digits| == 1) && AreDigits(digits)
  }

  function NumberValue(digits: string): nat
    requires AreDigits(digits)
  {
    if digits == [] then 0
    else
      assert IsDigit(digits[|digits| - 1]);
      NumberValue(digits[..|digits| - 1]) * 10 + (digits[|digits| - 1] as int - '0' as int)
  }

  function RenderNumber(number: nat): string
  {
    if number < 10 then [(number as char) + '0'] else RenderNumber(number / 10) + [((number % 10) as char) + '0']
  }

  lemma {:induction false} PositiveValue(digits: string)
    requires IsCanonicalNumber(digits) && digits[0] != '0'
    ensures NumberValue(digits) > 0
    decreases |digits|
  {
    if |digits| > 1 {
      PositiveValue(digits[..|digits| - 1]);
    }
  }

  /** A canonical numeral is the rendering of its value, so equal values have equal numerals. */
  lemma {:induction false} RenderOfValue(digits: string)
    requires IsCanonicalNumber(digits)
    ensures RenderNumber(NumberValue(digits)) == digits
    decreases |digits|
  {
    if |digits| == 1 {
      assert digits == [digits[0]];
      assert NumberValue(digits[..0]) == 0;
    } else {
      var initial := digits[..|digits| - 1];
      PositiveValue(initial);
      RenderOfValue(initial);
      assert NumberValue(digits) / 10 == NumberValue(initial);
      assert digits == initial + [digits[|digits| - 1]];
    }
  }

  lemma {:induction false} ValueOfRender(number: nat)
    ensures IsCanonicalNumber(RenderNumber(number)) && NumberValue(RenderNumber(number)) == number
    ensures number > 0 ==> RenderNumber(number)[0] != '0'
  {
    if number >= 10 {
      ValueOfRender(number / 10);
      var initial := RenderNumber(number / 10);
      assert RenderNumber(number)[..|initial|] == initial;
    } else {
      assert NumberValue(RenderNumber(number)[..0]) == 0;
    }
  }

  /** Numerals of one length with the same value are the same. */
  lemma {:induction false} ValueIsInjective(left: string, right: string)
    requires AreDigits(left) && AreDigits(right) && |left| == |right| && NumberValue(left) == NumberValue(right)
    ensures left == right
  {
    if left != [] {
      var n := |left| - 1;
      assert IsDigit(left[n]) && IsDigit(right[n]);
      ValueIsInjective(left[..n], right[..n]);
      assert left == left[..n] + [left[n]] && right == right[..n] + [right[n]];
    }
  }
}
