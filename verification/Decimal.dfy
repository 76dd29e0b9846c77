/** Decimal numerals as byte strings, as `String(n)` writes them. */
module Decimal {

  newtype Byte = x: int | 0 <= x < 256

  type Bytes = seq<Byte>

  function Digits(n: nat): Bytes {
    if n < 10 then [(48 + n) as Byte] else Digits(n / 10) + [(48 + n % 10) as Byte]
  }

  predicate IsDigit(b: Byte) {
    48 <= b <= 57
  }

  function Value(digits: Bytes): nat {
    if digits == [] then 0
    else
      var last := digits[|digits| - 1];
      Value(digits[..|digits| - 1]) * 10 + if IsDigit(last) then (last - 48) as int else 0
  }

  /** The number of digits at the front. */
  function DigitRun(s: Bytes): (n: nat)
    ensures n <= |s|
  {
    if s == [] || !IsDigit(s[0]) then 0 else 1 + DigitRun(s[1..])
  }

  lemma {:induction false} DigitsAreDigits(n: nat)
    ensures Digits(n) != [] && forall d :: d in Digits(n) ==> IsDigit(d)
  {
    if n >= 10 {
      DigitsAreDigits(n / 10);
    }
  }

  /** The shortest numeral: no zero in front, unless it is the number. */
  lemma {:induction false} NoLeadingZero(n: nat)
    requires n > 0
    ensures Digits(n)[0] != 48
  {
    if n >= 10 {
      NoLeadingZero(n / 10);
    }
  }

  lemma {:induction false} ValueOfDigits(n: nat)
    ensures Value(Digits(n)) == n
  {
    if n < 10 {
      assert Digits(n)[..0] == [];
    } else {
      ValueOfDigits(n / 10);
      assert Digits(n)[..|Digits(n)| - 1] == Digits(n / 10);
    }
  }

  lemma {:induction false} DigitRunStops(digits: Bytes, rest: Bytes)
    requires (forall d :: d in digits ==> IsDigit(d)) && rest != [] && !IsDigit(rest[0])
    ensures DigitRun(digits + rest) == |digits|
  {
    if digits == [] {
      assert digits + rest == rest;
    } else {
      assert digits[0] in digits && (digits + rest)[1..] == digits[1..] + rest;
      assert forall d :: d in digits[1..] ==> d in digits;
      DigitRunStops(digits[1..], rest);
    }
  }

  lemma {:induction false} DigitRunTakesAll(digits: Bytes)
    requires forall d :: d in digits ==> IsDigit(d)
    ensures DigitRun(digits) == |digits|
  {
    if digits != [] {
      assert digits[0] in digits;
      assert forall d :: d in digits[1..] ==> d in digits;
      DigitRunTakesAll(digits[1..]);
    }
  }
}
