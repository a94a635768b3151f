/** Printed numerals and the C readers that take them apart. */
module Numerals {

  const DIGITS := "0123456789abcdef"

  // Lower-case numeral of n, as %d, %lu and %x print it.
  function Numeral(n: nat, b: nat): (s: string)
    requires 2 <= b <= 16
    ensures s != []
  {
    DivMod(n, b);
    if n < b then [DIGITS[n]] else Numeral(n / b, b) + [DIGITS[n % b]]
  }

  function DigitValue(c: char): nat {
    if '0' <= c <= '9' then (c - '0') as nat
    else if 'a' <= c <= 'f' then (c - 'a') as nat + 10
    else if 'A' <= c <= 'F' then (c - 'A') as nat + 10
    else 16
  }

  // The value of the longest prefix of digits in base b, added onto acc.
  function ReadDigits(s: string, b: nat, acc: nat): nat
    requires 2 <= b <= 16
  {
    if s == "" || DigitValue(s[0]) >= b then acc else ReadDigits(s[1..], b, acc * b + DigitValue(s[0]))
  }

  lemma DigitRoundTrip(d: nat)
    requires d < 16
    ensures DigitValue(DIGITS[d]) == DigitValue("0123456789ABCDEF"[d]) == d
  {
  }

  lemma DivMod(n: nat, b: nat)
    requires b >= 2
    ensures n == n / b * b + n % b && 0 <= n % b < b
    ensures n >= b ==> 0 < n / b < n
  {
  }

  lemma {:induction false} NumeralDigits(n: nat, b: nat)
    requires 2 <= b <= 16
    ensures forall c <- Numeral(n, b) :: c in DIGITS
    decreases n
  {
    if n >= b {
      var q, d := LastDigit(n, b);
      assert DIGITS[d] in DIGITS;
      NumeralDigits(q, b);
    }
  }

  lemma ReadLastDigit(d: nat, b: nat, rest: string, acc: nat)
    requires d < b && 2 <= b <= 16
    ensures ReadDigits([DIGITS[d]] + rest, b, acc) == ReadDigits(rest, b, acc * b + d)
  {
    DigitRoundTrip(d);
    assert ([DIGITS[d]] + rest)[1..] == rest;
  }

  // The last digit of a numeral, and the numeral before it.
  lemma {:induction false} LastDigit(n: nat, b: nat) returns (q: nat, d: nat)
    requires 2 <= b <= 16 && n >= b
    ensures q < n && d < b && q * b + d == n && Numeral(n, b) == Numeral(q, b) + [DIGITS[d]]
  {
    DivMod(n, b);
    q, d := n / b, n % b;
  }

  lemma OneDigit(n: nat, b: nat)
    requires 2 <= b <= 16 && n < b
    ensures Numeral(n, b) == [DIGITS[n]]
  {
  }

  lemma Regroup(s: string, t: string, u: string)
    ensures s + t + u == s + (t + u)
  {
  }

  lemma {:induction false} ReadNumeral(n: nat, b: nat, rest: string)
    requires 2 <= b <= 16
    ensures ReadDigits(Numeral(n, b) + rest, b, 0) == ReadDigits(rest, b, n)
    decreases n
  {
    hide Numeral, ReadDigits, DigitValue;
    if n < b {
      OneDigit(n, b);
      ReadLastDigit(n, b, rest, 0);
    } else {
      var q, d := LastDigit(n, b);
      ReadNumeral(q, b, [DIGITS[d]] + rest);
      ReadLastDigit(d, b, rest, q);
      Regroup(Numeral(q, b), [DIGITS[d]], rest);
    }
  }

  // A printed positive number has no leading zero.
  lemma {:induction false} NumeralHead(n: nat, b: nat)
    requires 2 <= b <= 16
    ensures Numeral(n, b)[0] == '0' <==> n == 0
    decreases n
  {
    if n >= b {
      var q, _ := LastDigit(n, b);
      NumeralHead(q, b);
    }
  }
}
