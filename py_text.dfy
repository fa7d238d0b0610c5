/** The few Python built-ins the filter and the scoring rules lean on:
    `str.isdigit()`, `int()` on a digit string, and `list.index()`.
    Only ASCII decimal digits are modelled. */
module PyText {

  predicate IsDigitChar(c: char) {
    '0' <= c <= '9'
  }

  predicate AllDigits(s: string) {
    forall i :: 0 <= i < |s| ==> IsDigitChar(s[i])
  }

  /** `s.isdigit()`: true for a non-empty string of decimal digits only. */
  predicate IsDigits(s: string) {
    |s| > 0 && AllDigits(s)
  }

  function Pow10(k: nat): (p: nat)
    ensures p >= 1
  {
    if k == 0 then 1 else 10 * Pow10(k - 1)
  }

  /** `int(s)` for a string of decimal digits; leading zeros are allowed. */
  function DigitsValue(s: string): (n: nat)
    requires AllDigits(s)
    ensures n < Pow10(|s|)
  {
    if |s| == 0 then 0
    else DigitsValue(s[..|s| - 1]) * 10 + (s[|s| - 1] as int - '0' as int)
  }

  /** The decimal numeral of `n`, without leading zeros; the inverse of `DigitsValue`. */
  function NatToDigits(n: nat): (s: string)
    ensures IsDigits(s)
  {
    if n < 10 then [('0' as int + n) as char]
    else NatToDigits(n / 10) + [('0' as int + n % 10) as char]
  }

  /** Parsing the numeral of `n` gives `n` back. */
  lemma {:induction false} DigitsValueOfNatToDigits(n: nat)
    ensures DigitsValue(NatToDigits(n)) == n
  {
    var s := NatToDigits(n);
    if n < 10 {
      assert s[..|s| - 1] == [];
    } else {
      assert s[..|s| - 1] == NatToDigits(n / 10);
      DigitsValueOfNatToDigits(n / 10);
    }
  }

  /** `get_valid_number(value, default)`: `int(value)` when `value.isdigit()`, else `default`. */
  function GetValidNumber(value: string, default: int): (r: int)
    ensures IsDigits(value) ==> r == DigitsValue(value) && r >= 0
    ensures !IsDigits(value) ==> r == default
  {
    if IsDigits(value) then DigitsValue(value) else default
  }

  /** A numeral always parses to its own value, whatever the default. */
  lemma GetValidNumberOfNumeral(n: nat, default: int)
    ensures GetValidNumber(NatToDigits(n), default) == n
  {
    DigitsValueOfNatToDigits(n);
  }

  /** `list.index(x)`: the position of the first occurrence of `x`. */
  function FirstIndex<T(==)>(xs: seq<T>, x: T): (i: nat)
    requires x in xs
    ensures i < |xs| && xs[i] == x
    ensures forall j :: 0 <= j < i ==> xs[j] != x
  {
    if xs[0] == x then 0 else 1 + FirstIndex(xs[1..], x)
  }

  /** In a list without repeats, `index` finds each element at its own position. */
  lemma FirstIndexOfDistinct<T>(xs: seq<T>, i: nat)
    requires i < |xs|
    requires forall j, k :: 0 <= j < k < |xs| ==> xs[j] != xs[k]
    ensures FirstIndex(xs, xs[i]) == i
  {
  }

  /** Appending to a list does not move the first occurrence of an element it already holds. */
  lemma {:induction false} FirstIndexOfPrefix<T>(xs: seq<T>, ys: seq<T>, x: T)
    requires x in xs
    ensures FirstIndex(xs + ys, x) == FirstIndex(xs, x)
  {
    if xs[0] != x {
      assert (xs + ys)[1..] == xs[1..] + ys;
      FirstIndexOfPrefix(xs[1..], ys, x);
    }
  }
}
