/** Characters and strings, as identifier patterns and the strings package read them. */
module Texts {

  predicate IsLower(c: char)
  {
    'a' <= c <= 'z'
  }

  predicate IsUpper(c: char)
  {
    'A' <= c <= 'Z'
  }

  predicate IsDigit(c: char)
  {
    '0' <= c <= '9'
  }

  /** ^[a-z][A-Za-z0-9]+$ */
  predicate IsLowerCamel(name: string)
  {
    2 <= |name| && IsLower(name[0]) &&
      forall i :: 1 <= i < |name| ==> IsLower(name[i]) || IsUpper(name[i]) || IsDigit(name[i])
  }

  predicate HasPrefix(text: string, prefix: string)
  {
    |prefix| <= |text| && text[..|prefix|] == prefix
  }

  predicate HasSuffix(text: string, suffix: string)
  {
    |suffix| <= |text| && text[|text| - |suffix|..] == suffix
  }

  lemma ConcatIsAssociative<T>(left: seq<T>, middle: seq<T>, right: seq<T>)
    ensures left + (middle + right) == (left + middle) + right
  {
  }
}
