/**
 * The C library's view of numbers in text that the fg and bg commands rely
 * on: isdigit, isspace and atoi, together with the decimal rendering that
 * atoi inverts.
 */
module Text {

  /** isdigit in the C locale. */
  predicate IsDigit(c: char)
  {
    '0' <= c <= '9'
  }

  /** isspace in the C locale: space, tab, newline, vertical tab, form feed, carriage return. */
  predicate IsSpace(c: char)
  {
    c == ' ' || c == '\t' || c == '\n' || c == '\r' || c as int == 11 || c as int == 12
  }

  predicate AllDigits(s: string)
  {
    forall i :: 0 <= i < |s| ==> IsDigit(s[i])
  }

  /** The length of the run of white space that starts s. */
  function SpaceRun(s: string): (n: nat)
    ensures n <= |s|
    ensures forall i :: 0 <= i < n ==> IsSpace(s[i])
    ensures n < |s| ==> !IsSpace(s[n])
  {
    if s != [] && IsSpace(s[0]) then 1 + SpaceRun(s[1..]) else 0
  }

  /** The length of the run of digits that starts s. */
  function DigitRun(s: string): (n: nat)
    ensures n <= |s|
    ensures AllDigits(s[..n])
    ensures n < |s| ==> !IsDigit(s[n])
  {
    if s != [] && IsDigit(s[0]) then
      var n := DigitRun(s[1..]);
      assert forall i :: 0 <= i < n ==> s[1..][i] == s[i + 1];
      1 + n
    else 0
  }

  /** The number a string of decimal digits denotes. */
  function Value(ds: string): nat
    requires AllDigits(ds)
  {
    if ds == [] then 0
    else Value(ds[..|ds| - 1]) * 10 + (ds[|ds| - 1] as int - '0' as int)
  }

  /**
   * atoi: skip leading white space, read an optional sign, then the longest
   * run of decimal digits; anything after the digits is ignored, and no
   * digits at all read as 0.
   */
  function Atoi(s: string): (r: int)
    ensures s != [] && AllDigits(s) ==> r == Value(s)
    ensures s != [] && IsDigit(s[0]) ==> r >= 0
  {
    assert s != [] && IsDigit(s[0]) ==> SpaceRun(s) == 0 && s[0..] == s;
    assert AllDigits(s) ==> DigitRun(s) == |s| && s[..|s|] == s;
    var rest := s[SpaceRun(s)..];
    var signed := rest != [] && (rest[0] == '-' || rest[0] == '+');
    var digits := if signed then rest[1..] else rest;
    var v: int := Value(digits[..DigitRun(digits)]);
    if signed && rest[0] == '-' then -v else v
  }

  /** The decimal rendering of n, without sign or leading zeros (what printf's %d prints). */
  function Decimal(n: nat): (s: string)
    ensures |s| >= 1 && AllDigits(s)
    ensures IsDigit(s[0]) && (s[0] == '0' ==> n == 0)
  {
    (if n >= 10 then Decimal(n / 10) else "") + [('0' as int + n % 10) as char]
  }

  /** The digits of Decimal(n) denote n. */
  lemma {:induction false} ValueOfDecimal(n: nat)
    ensures Value(Decimal(n)) == n
  {
    var d := Decimal(n);
    if n >= 10 {
      assert d[..|d| - 1] == Decimal(n / 10);
      ValueOfDecimal(n / 10);
    } else {
      assert d[..|d| - 1] == "";
    }
  }

  /** atoi reads back what %d prints, also when a non-digit follows: atoi(Decimal(n) + rest) == n. */
  lemma AtoiDecimal(n: nat, rest: string)
    requires rest == [] || !IsDigit(rest[0])
    ensures Atoi(Decimal(n) + rest) == n
  {
    var d := Decimal(n);
    var s := d + rest;
    assert s[0] == d[0];
    AtoiOfDigits(s);
    assert s[..DigitRun(s)] == d by {
      DigitRunOfPrefix(d, rest);
    }
    ValueOfDecimal(n);
  }

  /** The digit run of digits ds followed by a non-digit is ds itself. */
  lemma DigitRunOfPrefix(ds: string, rest: string)
    requires AllDigits(ds)
    requires rest == [] || !IsDigit(rest[0])
    ensures DigitRun(ds + rest) == |ds| && (ds + rest)[..|ds|] == ds
  {
    var s := ds + rest;
    assert forall i :: 0 <= i < |ds| ==> s[i] == ds[i];
    assert |ds| < |s| ==> s[|ds|] == rest[0];
    assert s[..|ds|] == ds;
  }

  /** A string that starts with a digit reads as the non-negative value of its leading digits. */
  lemma AtoiOfDigits(s: string)
    requires s != [] && IsDigit(s[0])
    ensures Atoi(s) == Value(s[..DigitRun(s)]) >= 0
  {
    assert SpaceRun(s) == 0;
    assert s[0..] == s;
  }
}
