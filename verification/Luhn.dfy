/**
 * The Luhn check that guards card-number scrubbing, against the recursive definition of Annex B
 * of ISO/IEC 7812-1, and the errors it detects.
 */
module Luhn {

  /** `charCodeAt(i) - 48`. */
  function Value(c: char): int {
    c as int - 48
  }

  predicate Digits(s: string) {
    forall i :: 0 <= i < |s| ==> '0' <= s[i] <= '9'
  }

  const DIGITS := "0123456789"

  /** A digit's contribution; every second digit from the right is doubled, less 9 when over 9. */
  function Weight(d: int, double: bool): int {
    if !double then d else if d * 2 > 9 then d * 2 - 9 else d * 2
  }

  /** The weighted sum of the digits, read from the right; `double` applies to the last one. */
  function Sum(s: string, double: bool): int {
    if s == "" then 0
    else Weight(Value(s[|s| - 1]), double) + Sum(s[..|s| - 1], !double)
  }

  predicate Valid(s: string) {
    Sum(s, false) % 10 == 0
  }

  /** The sum by pairs from the right: of each two digits the last counts with its value and the one
      before it with the digit sum of its double. */
  lemma SumByPairs(s: string, a: nat, b: nat)
    requires a < 10 && b < 10
    ensures Sum("", false) == 0 && Sum([DIGITS[b]], false) == b
    ensures Sum(s + [DIGITS[a], DIGITS[b]], false) == Sum(s, false) + (2 * a) / 10 + (2 * a) % 10 + b
  {
    var x, y := DIGITS[a], DIGITS[b];
    assert (s + [x, y])[..|s| + 1] == s + [x] && (s + [x])[..|s|] == s;
    assert Sum(s + [x], true) == Weight(Value(x), true) + Sum(s, false);
  }

  method LuhnValid(digits: string) returns (valid: bool)
    ensures valid <==> Valid(digits)
  {
    var sum := 0;
    var double := false;
    var i := |digits| - 1;
    assert digits[..|digits|] == digits;
    while i >= 0
      invariant -1 <= i < |digits|
      invariant sum + Sum(digits[..i + 1], double) == Sum(digits, false)
    {
      assert digits[..i + 1][..i] == digits[..i];
      var d := Value(digits[i]);
      if double {
        d := d * 2;
        if d > 9 {
          d := d - 9;
        }
      }
      sum := sum + d;
      double := !double;
      i := i - 1;
    }
    return sum % 10 == 0;
  }

  /** Whether position `i` of a string of length `n` is doubled, when `double` applies to its end. */
  predicate DoubledAt(n: nat, i: nat, double: bool)
    requires i < n
  {
    ((n - 1 - i) % 2 == 1) != double
  }

  /** Replacing one character changes the sum by the difference of the two weights. */
  lemma {:induction false} SumOfReplaced(s: string, i: nat, c: char, double: bool)
    requires i < |s|
    ensures Sum(s[i := c], double) - Sum(s, double)
         == Weight(Value(c), DoubledAt(|s|, i, double)) - Weight(Value(s[i]), DoubledAt(|s|, i, double))
  {
    var n := |s| - 1;
    if i < n {
      SumOfReplaced(s[..n], i, c, !double);
      assert s[i := c][..n] == s[..n][i := c];
    } else {
      assert s[i := c][..n] == s[..n];
    }
  }

  /** Doubling and casting out nines is a permutation of the ten digits. */
  lemma WeightsDiffer(d: int, e: int, double: bool)
    requires 0 <= d <= 9 && 0 <= e <= 9 && d != e
    ensures (Weight(d, double) - Weight(e, double)) % 10 != 0
  {}

  /** Changing any one digit of a valid number makes it invalid. */
  lemma OneWrongDigitIsDetected(s: string, i: nat, c: char)
    requires Digits(s) && Valid(s) && i < |s| && '0' <= c <= '9' && c != s[i]
    ensures !Valid(s[i := c])
  {
    var double := DoubledAt(|s|, i, false);
    SumOfReplaced(s, i, c, false);
    WeightsDiffer(Value(c), Value(s[i]), double);
    ChangeShows(Sum(s, false), Sum(s[i := c], false), Weight(Value(c), double) - Weight(Value(s[i]), double));
  }

  lemma ChangeShows(before: int, after: int, delta: int)
    requires before % 10 == 0 && after - before == delta && delta % 10 != 0
    ensures after % 10 != 0
  {}

  lemma NoChangeHides(before: int, after: int, delta: int)
    requires before % 10 == 0 && after - before == delta && delta % 10 == 0
    ensures after % 10 == 0
  {}

  function Swapped(s: string, i: nat): string
    requires i + 1 < |s|
  {
    s[i := s[i + 1]][i + 1 := s[i]]
  }

  lemma NeighboursAlternate(n: nat, i: nat)
    requires i + 1 < n
    ensures DoubledAt(n, i + 1, false) == !DoubledAt(n, i, false)
  {}

  /** What swapping two neighbours adds to the sum, the left one being doubled or not. */
  function SwapDelta(left: int, right: int, double: bool): int {
    Weight(right, double) - Weight(left, double) + Weight(left, !double) - Weight(right, !double)
  }

  lemma SumOfSwapped(s: string, i: nat, double: bool)
    requires i + 1 < |s| && double == DoubledAt(|s|, i, false)
    ensures Sum(Swapped(s, i), false) == Sum(s, false) + SwapDelta(Value(s[i]), Value(s[i + 1]), double)
  {
    var once := s[i := s[i + 1]];
    SumOfReplaced(s, i, s[i + 1], false);
    SumOfReplaced(once, i + 1, s[i], false);
    NeighboursAlternate(|s|, i);
    assert once[i + 1] == s[i + 1];
  }

  /** Swapping two different neighbouring digits of a valid number goes unnoticed exactly when
      they are 0 and 9. */
  lemma SwapIsDetectedUnlessZeroNine(s: string, i: nat)
    requires Digits(s) && Valid(s) && i + 1 < |s| && s[i] != s[i + 1]
    ensures Valid(Swapped(s, i)) <==> {Value(s[i]), Value(s[i + 1])} == {0, 9}
  {
    var double := DoubledAt(|s|, i, false);
    SumOfSwapped(s, i, double);
    SwapWeights(Value(s[i]), Value(s[i + 1]), double);
    var delta := SwapDelta(Value(s[i]), Value(s[i + 1]), double);
    if delta % 10 != 0 {
      ChangeShows(Sum(s, false), Sum(Swapped(s, i), false), delta);
    } else {
      NoChangeHides(Sum(s, false), Sum(Swapped(s, i), false), delta);
    }
  }

  lemma SwapWeights(d: int, e: int, double: bool)
    requires 0 <= d <= 9 && 0 <= e <= 9 && d != e
    ensures SwapDelta(d, e, double) % 10 == 0 <==> {d, e} == {0, 9}
  {
    if {d, e} == {0, 9} {
      assert d in {0, 9} && e in {0, 9};
    } else {
      assert !(d == 0 && e == 9) && !(d == 9 && e == 0);
    }
  }

  /** The check digit of a prefix. */
  function CheckDigit(prefix: string): char {
    (48 + (10 - Sum(prefix, true) % 10) % 10) as char
  }

  /** Every digit string has exactly one check digit that completes it. */
  lemma CheckDigitIsUnique(prefix: string, c: char)
    requires '0' <= c <= '9'
    ensures Valid(prefix + [c]) <==> c == CheckDigit(prefix)
  {
    var s := prefix + [c];
    assert s[..|s| - 1] == prefix;
    var sum, d := Sum(prefix, true), Value(c);
    assert (sum + d) % 10 == 0 <==> d == (10 - sum % 10) % 10;
  }
}
