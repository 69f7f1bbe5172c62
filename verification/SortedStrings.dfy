/** sort.Strings on the values that break reports list. The byte order of UTF-8 is the order of code points. */
module SortedStrings {
  import opened Wrappers

  predicate Before(left: string, right: string)
  {
    right != [] && (left == [] || left[0] < right[0] || (left[0] == right[0] && Before(left[1..], right[1..])))
  }

  lemma {:induction false} BeforeIsTotalOrder(a: string, b: string, c: string)
    ensures !Before(a, a)
    ensures Before(a, b) || Before(b, a) || a == b
    ensures Before(a, b) && Before(b, c) ==> Before(a, c)
    decreases |a|
  {
    if a != [] {
      var tailB, tailC := if b == [] then [] else b[1..], if c == [] then [] else c[1..];
      BeforeIsTotalOrder(a[1..], tailB, tailC);
      assert a == [a[0]] + a[1..];
      assert b != [] ==> b == [b[0]] + b[1..];
    }
  }

  /** Strictly increasing, so without repetition. */
  ghost predicate IsIncreasing(values: seq<string>)
  {
    forall i, j :: 0 <= i < j < |values| ==> Before(values[i], values[j])
  }

  ghost predicate IsDistinct(values: seq<string>)
  {
    forall i, j :: 0 <= i < j < |values| ==> values[i] != values[j]
  }

  function Insert(sorted: seq<string>, value: string): seq<string>
  {
    if sorted == [] || Before(value, sorted[0]) then [value] + sorted else [sorted[0]] + Insert(sorted[1..], value)
  }

  function Sort(values: seq<string>): seq<string>
  {
    if values == [] then [] else Insert(Sort(values[..|values| - 1]), values[|values| - 1])
  }

  lemma {:induction false} InsertElements(sorted: seq<string>, value: string)
    ensures forall v :: v in Insert(sorted, value) <==> v in sorted || v == value
  {
    if !(sorted == [] || Before(value, sorted[0])) {
      InsertElements(sorted[1..], value);
      assert sorted == [sorted[0]] + sorted[1..];
    }
  }

  lemma IncreasingCons(first: string, rest: seq<string>)
    requires IsIncreasing(rest) && forall v :: v in rest ==> Before(first, v)
    ensures IsIncreasing([first] + rest)
  {
    var all := [first] + rest;
    forall i, j | 0 <= i < j < |all| ensures Before(all[i], all[j]) {
      assert all[j] == rest[j - 1] && rest[j - 1] in rest;
      assert i > 0 ==> all[i] == rest[i - 1];
    }
  }

  lemma IncreasingTail(values: seq<string>)
    requires IsIncreasing(values) && values != []
    ensures IsIncreasing(values[1..]) && forall v :: v in values[1..] ==> Before(values[0], v)
  {
    var rest := values[1..];
    forall i, j | 0 <= i < j < |rest| ensures Before(rest[i], rest[j]) {
      assert rest[i] == values[i + 1] && rest[j] == values[j + 1];
    }
  }

  lemma {:induction false} InsertIncreasing(sorted: seq<string>, value: string)
    requires IsIncreasing(sorted) && value !in sorted
    ensures IsIncreasing(Insert(sorted, value))
  {
    hide Before, IsIncreasing;
    if sorted == [] {
      IncreasingNone();
      IncreasingCons(value, []);
    } else {
      var first, rest := sorted[0], sorted[1..];
      IncreasingTail(sorted);
      BeforeIsTotalOrder(value, first, value);
      if Before(value, first) {
        forall v | v in sorted ensures Before(value, v) {
          assert v == first || v in rest;
          BeforeIsTotalOrder(value, first, v);
        }
        IncreasingCons(value, sorted);
      } else {
        InsertIncreasing(rest, value);
        InsertElements(rest, value);
        IncreasingCons(first, Insert(rest, value));
      }
    }
  }

  lemma IncreasingNone()
    ensures IsIncreasing([])
  {
  }

  /** Sorting values without repetition lists exactly them, in increasing order. */
  lemma {:induction false} SortIsIncreasing(values: seq<string>)
    requires IsDistinct(values)
    ensures IsIncreasing(Sort(values)) && Elements(Sort(values)) == Elements(values)
  {
    hide Before, Insert;
    if values != [] {
      var initial, last := values[..|values| - 1], values[|values| - 1];
      SortIsIncreasing(initial);
      assert values == initial + [last];
      assert last in Elements(Sort(initial)) <==> last in Elements(initial);
      InsertIncreasing(Sort(initial), last);
      InsertElements(Sort(initial), last);
      assert Elements(Sort(values)) == Elements(Sort(initial)) + {last};
      assert Elements(values) == Elements(initial) + {last};
    }
  }
}
