/** Texts compared with the number 0 in XPath 1.0: section 4.4 turns a text into the nearest double. */
module XPathNumbers {
  predicate IsDigit(c: char) {
    '0' <= c <= '9'
  }

  /** Digits with at most one point, at least one digit among them. */
  predicate IsNumeral(s: string, point: bool, digit: bool) {
    if s == "" then digit
    else if IsDigit(s[0]) then IsNumeral(s[1..], point, true)
    else s[0] == '.' && !point && IsNumeral(s[1..], true, digit)
  }

  /** The digits read as one number, without the point. */
  function Digits(s: string): nat {
    if s == "" then 0
    else
      var front, last := Digits(s[..|s| - 1]), s[|s| - 1];
      if IsDigit(last) then 10 * front + (last - '0') as nat else front
  }

  /** How many digits follow the point. */
  function Decimals(s: string): nat {
    if s == "" then 0 else if s[0] == '.' then |s| - 1 else Decimals(s[1..])
  }

  function Pow(b: nat, e: nat): (p: nat)
    ensures b > 0 ==> p > 0
  {
    if e == 0 then 1 else b * Pow(b, e - 1)
  }

  /** 2 to the power of -1074 is the least positive double. What is at most half of it is rounded to
      zero, the half itself because zero is the even neighbour. */
  const HALF_OF_LEAST := 1075

  predicate RoundsToZero(s: string) {
    Digits(s) * Pow(2, HALF_OF_LEAST) <= Pow(10, Decimals(s))
  }

  function TrimXml(s: string): string {
    if s != "" && s[0] in " \t\n\r" then TrimXml(s[1..])
    else if s != "" && s[|s| - 1] in " \t\n\r" then TrimXml(s[..|s| - 1])
    else s
  }

  function Unsigned(s: string): string {
    if s != "" && s[0] == '-' then s[1..] else s
  }

  /** `s = 0` for a text `s`. */
  predicate IsZero(s: string) {
    var t := Unsigned(TrimXml(s));
    IsNumeral(t, false, false) && RoundsToZero(t)
  }

  // ------------------------------------------------------------------ numerals

  lemma NumeralIsTrimmed(s: string)
    requires IsNumeral(s, false, false)
    ensures Unsigned(TrimXml(s)) == s
  {
    NumeralEnds(s, false, false);
  }

  lemma {:induction false} NumeralEnds(s: string, point: bool, digit: bool)
    requires IsNumeral(s, point, digit) && s != ""
    ensures IsDigit(s[0]) || s[0] == '.'
    ensures IsDigit(s[|s| - 1]) || s[|s| - 1] == '.'
  {
    if |s| > 1 {
      if IsDigit(s[0]) { NumeralEnds(s[1..], point, true); } else { NumeralEnds(s[1..], true, digit); }
    }
  }

  lemma {:induction false} ZerosAreZero(s: string)
    ensures Digits(s) == 0 <==> forall i :: 0 <= i < |s| && IsDigit(s[i]) ==> s[i] == '0'
  {
    if s != "" {
      var front := s[..|s| - 1];
      ZerosAreZero(front);
      assert forall i :: 0 <= i < |front| ==> front[i] == s[i];
    }
  }

  // ------------------------------------------------------------------ powers

  lemma {:induction false} PowAdd(b: nat, i: nat, j: nat)
    ensures Pow(b, i + j) == Pow(b, i) * Pow(b, j)
  {
    if i > 0 {
      PowAdd(b, i - 1, j);
      Associate(b, Pow(b, i - 1), Pow(b, j));
    }
  }

  lemma Associate(a: nat, b: nat, c: nat)
    ensures a * (b * c) == (a * b) * c
  {
  }

  lemma Multiply(a: nat, b: nat, c: nat, d: nat)
    requires a <= b && c <= d
    ensures a * c <= b * d
  {
    assert a * c <= b * c <= b * d;
  }

  lemma PowGrows(b: nat, i: nat, j: nat)
    requires b > 0 && i <= j
    ensures Pow(b, i) <= Pow(b, j)
  {
    PowAdd(b, i, j - i);
    AtLeast(Pow(b, i), Pow(b, j - i));
  }

  lemma AtLeast(a: nat, b: nat)
    requires b > 0
    ensures a <= a * b && a <= b * a
  {
  }

  /** 8 < 10, 64 < 100, 512 < 1000, 8192 < 10000, and so on. */
  lemma {:induction false} TensBeatTwos(d: nat)
    ensures Pow(2, 13 * d / 4) <= Pow(10, d)
  {
    assert Pow(2, 3) == 8 && Pow(2, 6) == 64 && Pow(2, 9) == 512 && Pow(2, 13) == 8192;
    assert Pow(10, 1) == 10 && Pow(10, 2) == 100 && Pow(10, 3) == 1000 && Pow(10, 4) == 10000;
    if d >= 4 {
      TensBeatTwos(d - 4);
      assert 13 * d / 4 == 13 + 13 * (d - 4) / 4;
      PowAdd(2, 13, 13 * (d - 4) / 4);
      PowAdd(10, 4, d - 4);
      Multiply(Pow(2, 13), Pow(10, 4), Pow(2, 13 * (d - 4) / 4), Pow(10, d - 4));
    }
  }

  /** 10 < 16, 100 < 128, 1000 < 1024, and so on. */
  lemma {:induction false} TwosBeatTens(d: nat)
    ensures Pow(10, d) <= Pow(2, (10 * d + 2) / 3)
  {
    assert Pow(2, 4) == 16 && Pow(2, 7) == 128 && Pow(2, 10) == 1024;
    assert Pow(10, 1) == 10 && Pow(10, 2) == 100 && Pow(10, 3) == 1000;
    if d >= 3 {
      TwosBeatTens(d - 3);
      assert (10 * d + 2) / 3 == 10 + (10 * (d - 3) + 2) / 3;
      PowAdd(2, 10, (10 * (d - 3) + 2) / 3);
      PowAdd(10, 3, d - 3);
      Multiply(Pow(10, 3), Pow(2, 10), Pow(10, d - 3), Pow(2, (10 * (d - 3) + 2) / 3));
    }
  }

  // ------------------------------------------------------------------ what is zero

  /** With at most 322 decimals only zeros are zero. */
  lemma ShortNumerals(s: string)
    requires IsNumeral(s, false, false) && Decimals(s) <= 322
    ensures IsZero(s) <==> forall i :: 0 <= i < |s| && IsDigit(s[i]) ==> s[i] == '0'
  {
    NumeralIsTrimmed(s);
    ZerosAreZero(s);
    if Digits(s) > 0 { TooLarge(Digits(s), HALF_OF_LEAST, Decimals(s)); }
  }

  lemma TooLarge(m: nat, e: nat, d: nat)
    requires m > 0 && (10 * d + 2) / 3 < e
    ensures m * Pow(2, e) > Pow(10, d)
  {
    var t := (10 * d + 2) / 3;
    assert Pow(2, e) > Pow(10, d) by {
      TwosBeatTens(d);
      PowGrows(2, t, e - 1);
    }
    AtLeast(Pow(2, e), m);
  }

  lemma {:induction false} TensAreTwosAndFives(e: nat)
    ensures Pow(10, e) == Pow(2, e) * Pow(5, e)
  {
    if e > 0 {
      TensAreTwosAndFives(e - 1);
      Regroup(Pow(2, e - 1), Pow(5, e - 1));
    }
  }

  lemma Regroup(a: nat, b: nat)
    ensures 10 * (a * b) == (2 * a) * (5 * b)
  {
  }

  lemma Cancel(a: nat, b: nat, c: nat)
    requires c > 0
    ensures a * c <= c * b <==> a <= b
  {
    if a <= b { Multiply(a, b, c, c); } else { Multiply(b + 1, a, c, c); }
  }

  /** The limit itself: half of the least positive double is 5 to the power of 1075 with 1075 decimals,
      which is still zero, and the next larger one of so many decimals is not. */
  lemma HalfIsZero(s: string)
    requires IsNumeral(s, false, false) && Decimals(s) == 1075
    ensures IsZero(s) <==> Digits(s) <= Pow(5, 1075)
  {
    NumeralIsTrimmed(s);
    var e: nat := Decimals(s);
    TensAreTwosAndFives(e);
    Cancel(Digits(s), Pow(5, e), Pow(2, e));
  }

  function Zeros(n: nat): string {
    if n == 0 then "" else "0" + Zeros(n - 1)
  }

  function Tiny(n: nat): string {
    "0." + Zeros(n) + "1"
  }

  lemma {:induction false} TinyShape(n: nat)
    ensures Digits(Zeros(n)) == 0 && |Zeros(n)| == n && IsNumeral(Zeros(n) + "1", true, true)
  {
    if n > 0 {
      TinyShape(n - 1);
      assert (Zeros(n) + "1")[1..] == Zeros(n - 1) + "1";
      ZerosAreZero(Zeros(n - 1));
      ZerosAreZero(Zeros(n));
    }
  }

  /** A one behind a point and 330 zeros or more is rounded to zero. */
  lemma TinyIsZero(n: nat)
    requires n >= 330
    ensures IsZero(Tiny(n))
  {
    var s, half := Tiny(n), HALF_OF_LEAST;
    TinyShape(n);
    assert s[..|s| - 1] == "0." + Zeros(n) && s[1..] == "." + (Zeros(n) + "1") && s[1..][1..] == Zeros(n) + "1";
    ZerosAreZero(Zeros(n));
    ZerosAreZero("0." + Zeros(n));
    NumeralIsTrimmed(s);
    assert Digits(s) == 1 && Decimals(s) == n + 1;
    TensBeatTwos(n + 1);
    PowGrows(2, half, 13 * (n + 1) / 4);
  }

  /** With one zero more any last digit is rounded to zero. */
  lemma TinyDigitIsZero(n: nat, d: char)
    requires n >= 331 && '0' <= d <= '9'
    ensures IsZero("0." + Zeros(n) + [d])
  {
    TinyNumeral(n, d);
    NumeralIsTrimmed("0." + Zeros(n) + [d]);
    SmallEnough(Digits("0." + Zeros(n) + [d]), HALF_OF_LEAST, n);
  }

  lemma SmallEnough(m: nat, e: nat, n: nat)
    requires m <= 10 && e <= 13 * n / 4
    ensures m * Pow(2, e) <= Pow(10, n + 1)
  {
    TensBeatTwos(n);
    PowGrows(2, e, 13 * n / 4);
    Multiply(m, 10, Pow(2, e), Pow(10, n));
  }

  lemma TinyNumeral(n: nat, d: char)
    requires IsDigit(d)
    ensures var s := "0." + Zeros(n) + [d]; IsNumeral(s, false, false) && Digits(s) <= 9 && Decimals(s) == n + 1
  {
    var s := "0." + Zeros(n) + [d];
    TinyShape(n);
    DecimalsOfTiny(n, d);
    assert s[..|s| - 1] == "0." + Zeros(n) && s[1..] == "." + (Zeros(n) + [d]) && s[1..][1..] == Zeros(n) + [d];
    ZerosAreZero(Zeros(n));
    ZerosAreZero("0." + Zeros(n));
  }

  lemma {:induction false} DecimalsOfTiny(n: nat, d: char)
    requires IsDigit(d)
    ensures IsNumeral(Zeros(n) + [d], true, true)
  {
    if n > 0 {
      DecimalsOfTiny(n - 1, d);
      assert (Zeros(n) + [d])[1..] == Zeros(n - 1) + [d];
    }
  }

  /** White space around a number and a sign in front of it do not matter. */
  lemma SpaceAndSign(s: string, c: char)
    requires c in " \t\n\r" && IsNumeral(s, false, false)
    ensures IsZero([c] + s) == IsZero(s + [c]) == IsZero("-" + s) == IsZero(s)
  {
    NumeralIsTrimmed(s);
    NumeralEnds(s, false, false);
    assert TrimXml(s) == s;
    assert ([c] + s)[1..] == s;
    var back := s + [c];
    assert back[|back| - 1] == c && back[..|back| - 1] == s && back[0] == s[0];
    var signed := "-" + s;
    assert signed[1..] == s && signed[|signed| - 1] == s[|s| - 1];
  }
}
