/** Decimal numbers: printing, and reading them back up to a colon. */
module Decimals {
  import opened Types

  function Digits(n: nat): string {
    if n < 10 then ['0' + n as char] else Digits(n / 10) + ['0' + (n % 10) as char]
  }

  lemma DigitsSpell()
    ensures Digits(0) == "0" && Digits(10) == "10" && Digits(407) == "407"
  {
  }

  /** Reads a decimal number up to the colon; `value` is what precedes. */
  function ReadLength(s: string, value: nat): Option<(nat, string)> {
    if s == "" then None
    else if s[0] == ':' then Some((value, s[1..]))
    else if '0' <= s[0] <= '9' then ReadLength(s[1..], value * 10 + (s[0] - '0') as nat)
    else None
  }

  lemma ReadLengthShrinks(s: string, value: nat)
    ensures ReadLength(s, value).Some? ==> |ReadLength(s, value).value.1| < |s|
  {
  }

  lemma {:induction false} ReadsDigits(n: nat, t: string)
    ensures ReadLength(Digits(n) + t, 0) == ReadLength(t, n)
  {
    if n < 10 {
      ReadsDigit(0, n, t);
    } else {
      var d := ['0' + (n % 10) as char];
      ReadsDigits(n / 10, d + t);
      assert Digits(n) + t == Digits(n / 10) + (d + t);
      ReadsDigit(n / 10, n % 10, t);
    }
  }

  lemma ReadsDigit(value: nat, digit: nat, t: string)
    requires digit < 10
    ensures ReadLength(['0' + digit as char] + t, value) == ReadLength(t, value * 10 + digit)
  {
  }

  lemma DigitsInjective(m: nat, n: nat)
    ensures Digits(m) == Digits(n) <==> m == n
  {
    ReadsDigits(m, ":");
    ReadsDigits(n, ":");
  }
}
