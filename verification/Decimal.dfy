/**
 Integers as C prints them with "%i" and reads them with atoi.
 */
module Decimal {

  predicate IsDigit(c: char) {
    '0' <= c <= '9'
  }

  predicate AllDigits(s: string) {
    forall i | 0 <= i < |s| :: IsDigit(s[i])
  }

  function Digits(n: nat): (s: string)
    ensures |s| > 0 && AllDigits(s)
  {
    if n < 10 then ['0' + n as char] else Digits(n / 10) + ['0' + (n % 10) as char]
  }

  /** The text of "%i". */
  function Int(i: int): (s: string)
    ensures |s| > 0
  {
    if i < 0 then "-" + Digits(-i) else Digits(i)
  }

  /** The number a string of digits denotes. */
  function Number(s: string): nat
    requires AllDigits(s)
  {
    if s == "" then 0 else 10 * Number(s[..|s| - 1]) + (s[|s| - 1] as int - '0' as int)
  }

  /** How many digits `s` starts with. */
  function DigitPrefix(s: string): (n: nat)
    ensures n <= |s| && AllDigits(s[..n])
    ensures n < |s| ==> !IsDigit(s[n])
  {
    if s == "" || !IsDigit(s[0]) then 0
    else
      var n := 1 + DigitPrefix(s[1..]);
      assert s[..n] == [s[0]] + s[1..][..n - 1];
      n
  }

  /** atoi, without leading blanks and without overflow. */
  function Atoi(s: string): int {
    if s != "" && s[0] == '-' then 0 - Number(s[1..][..DigitPrefix(s[1..])])
    else Number(s[..DigitPrefix(s)])
  }

  lemma {:induction false} NumberOfDigits(n: nat)
    ensures Number(Digits(n)) == n
  {
    if n >= 10 {
      NumberOfDigits(n / 10);
      var s := Digits(n);
      assert s[..|s| - 1] == Digits(n / 10);
    }
  }

  lemma {:induction false} DigitPrefixStops(s: string, rest: string)
    requires AllDigits(s) && (rest == "" || !IsDigit(rest[0]))
    ensures DigitPrefix(s + rest) == |s|
  {
    if s == "" {
      assert s + rest == rest;
    } else {
      assert (s + rest)[1..] == s[1..] + rest;
      DigitPrefixStops(s[1..], rest);
    }
  }

  lemma NumberRead(n: nat, rest: string)
    requires rest == "" || !IsDigit(rest[0])
    ensures var s := Digits(n) + rest; Number(s[..DigitPrefix(s)]) == n
  {
    hide Digits, Number, DigitPrefix;
    NumberOfDigits(n);
    DigitPrefixStops(Digits(n), rest);
    assert (Digits(n) + rest)[..|Digits(n)|] == Digits(n);
  }

  /** A printed number is read back, whatever non-digit follows it. */
  lemma AtoiOfInt(i: int, rest: string)
    requires rest == "" || !IsDigit(rest[0])
    ensures Atoi(Int(i) + rest) == i
  {
    hide Digits, Number, DigitPrefix;
    var n := if i < 0 then -i else i;
    NumberRead(n, rest);
    var s := Int(i) + rest;
    if i < 0 {
      assert s[1..] == Digits(n) + rest;
    } else {
      assert s == Digits(n) + rest;
      assert IsDigit(s[0]);
    }
  }

  /** Different numbers print differently, even when text follows them. */
  lemma DigitsInjective(m: nat, n: nat, a: string, b: string)
    requires a == "" || !IsDigit(a[0])
    requires b == "" || !IsDigit(b[0])
    requires Digits(m) + a == Digits(n) + b
    ensures m == n && a == b
  {
    DigitPrefixStops(Digits(m), a);
    DigitPrefixStops(Digits(n), b);
    assert (Digits(m) + a)[..|Digits(m)|] == Digits(m);
    assert (Digits(n) + b)[..|Digits(n)|] == Digits(n);
    NumberOfDigits(m);
    NumberOfDigits(n);
    assert (Digits(m) + a)[|Digits(m)|..] == a;
    assert (Digits(n) + b)[|Digits(n)|..] == b;
  }
}
