/**
 * The PHP built-ins the two scripts lean on, stated exactly for the inputs
 * they receive: empty() on strings, trim(), and the (int) cast of a string.
 * A PHP string is a byte string; here it is a Dafny string holding one
 * character per byte.
 */
module Php {

  /** empty($s) for a string: both "" and "0" count as empty. */
  predicate IsEmpty(s: string)
  {
    s == "" || s == "0"
  }

  predicate IsDigit(c: char)
  {
    '0' <= c <= '9'
  }

  /** The characters trim() strips by default: " \t\n\r\0\x0B". */
  predicate IsTrimChar(c: char)
  {
    c == ' ' || c == '\t' || c == '\n' || c == '\r' || c as int == 0 || c as int == 11
  }

  /** The whitespace skipped before a numeric string: " \t\n\r\v\f". */
  predicate IsNumericSpace(c: char)
  {
    c == ' ' || c == '\t' || c == '\n' || c == '\r' || c as int == 11 || c as int == 12
  }

  // ---------------------------------------------------------------------
  // trim()
  // ---------------------------------------------------------------------

  /** ltrim($s): drops the longest prefix of trim characters. */
  function TrimLeft(s: string): string
  {
    if s != [] && IsTrimChar(s[0]) then TrimLeft(s[1..]) else s
  }

  /** ltrim($s) is a suffix of s that does not start with a trim character; only trim characters were cut. */
  lemma {:induction false} TrimLeftShape(s: string)
    ensures var r := TrimLeft(s);
      |r| <= |s| && r == s[|s| - |r|..]
      && (forall i :: 0 <= i < |s| - |r| ==> IsTrimChar(s[i]))
      && (r == [] || !IsTrimChar(r[0]))
    decreases |s|
  {
    if s != [] && IsTrimChar(s[0]) {
      TrimLeftShape(s[1..]);
      assert forall i :: 1 <= i < |s| ==> s[i] == s[1..][i - 1];
    }
  }

  /** rtrim($s): drops the longest suffix of trim characters. */
  function TrimRight(s: string): string
  {
    if s != [] && IsTrimChar(s[|s| - 1]) then TrimRight(s[..|s| - 1]) else s
  }

  /** rtrim($s) is a prefix of s that does not end with a trim character; only trim characters were cut. */
  lemma {:induction false} TrimRightShape(s: string)
    ensures var r := TrimRight(s);
      |r| <= |s| && r == s[..|r|]
      && (forall i :: |r| <= i < |s| ==> IsTrimChar(s[i]))
      && (r == [] || !IsTrimChar(r[|r| - 1]))
    decreases |s|
  {
    if s != [] && IsTrimChar(s[|s| - 1]) {
      var init := s[..|s| - 1];
      TrimRightShape(init);
      assert forall i :: 0 <= i < |init| ==> s[i] == init[i];
      assert init[..|TrimRight(init)|] == s[..|TrimRight(init)|];
    }
  }

  /** ltrim() stops at the last character of x when that is not a trim character, so what follows x is untouched. */
  lemma {:induction false} TrimLeftAppend(x: string, z: string)
    requires x != [] && !IsTrimChar(x[|x| - 1])
    ensures TrimLeft(x + z) == TrimLeft(x) + z
    decreases |x|
  {
    assert (x + z)[0] == x[0];
    if IsTrimChar(x[0]) {
      assert (x + z)[1..] == x[1..] + z;
      TrimLeftAppend(x[1..], z);
    }
  }

  /** rtrim() stops at the first character of y when that is not a trim character, so what precedes y is untouched. */
  lemma {:induction false} TrimRightPrepend(z: string, y: string)
    requires y != [] && !IsTrimChar(y[0])
    ensures TrimRight(z + y) == z + TrimRight(y)
    decreases |y|
  {
    var s := z + y;
    assert s[|s| - 1] == y[|y| - 1];
    if IsTrimChar(y[|y| - 1]) {
      assert s[..|s| - 1] == z + y[..|y| - 1];
      TrimRightPrepend(z, y[..|y| - 1]);
    }
  }

  /** trim($s). */
  function Trim(s: string): string
  {
    TrimRight(TrimLeft(s))
  }

  /** trim($s) is a contiguous piece of s, with only trim characters cut off either side. */
  lemma TrimShape(s: string)
    ensures var r := Trim(s);
      (exists i, j :: 0 <= i <= j <= |s| && r == s[i..j]
                   && (forall k :: 0 <= k < i ==> IsTrimChar(s[k]))
                   && (forall k :: j <= k < |s| ==> IsTrimChar(s[k])))
      && (r == [] || (!IsTrimChar(r[0]) && !IsTrimChar(r[|r| - 1])))
  {
    var l := TrimLeft(s);
    TrimLeftShape(s);
    var r := TrimRight(l);
    TrimRightShape(l);
    assert r == s[|s| - |l|..|s| - |l| + |r|];
    assert forall k :: |s| - |l| + |r| <= k < |s| ==> s[k] == l[k - (|s| - |l|)];
  }

  /** trim($s) is '' exactly when every character of s is a trim character. */
  lemma TrimEmptyIff(s: string)
    ensures Trim(s) == "" <==> forall k :: 0 <= k < |s| ==> IsTrimChar(s[k])
  {
    var l := TrimLeft(s);
    TrimLeftShape(s);
    TrimRightShape(l);
    assert Trim(s) == "" ==> l == [];
  }

  // ---------------------------------------------------------------------
  // The (int) cast of a string
  // ---------------------------------------------------------------------

  /** The length of the leading run of digits of s. */
  function DigitRun(s: string): (n: nat)
    ensures n <= |s|
    ensures forall i :: 0 <= i < n ==> IsDigit(s[i])
    ensures n < |s| ==> !IsDigit(s[n])
  {
    if s != [] && IsDigit(s[0]) then 1 + DigitRun(s[1..]) else 0
  }

  /** The length of the leading run of numeric-string whitespace of s. */
  function SpaceRun(s: string): (n: nat)
    ensures n <= |s|
    ensures forall i :: 0 <= i < n ==> IsNumericSpace(s[i])
    ensures n < |s| ==> !IsNumericSpace(s[n])
  {
    if s != [] && IsNumericSpace(s[0]) then 1 + SpaceRun(s[1..]) else 0
  }

  function Pow10(n: nat): (p: nat)
    ensures p >= 1
  {
    if n == 0 then 1 else 10 * Pow10(n - 1)
  }

  /** The value of a string of decimal digits, most significant first. */
  function DigitsValue(s: string): (v: nat)
    requires forall i :: 0 <= i < |s| ==> IsDigit(s[i])
    ensures v < Pow10(|s|)
  {
    if s == [] then 0
    else
      var high := DigitsValue(s[..|s| - 1]);
      assert IsDigit(s[|s| - 1]);
      assert 10 * high <= 10 * (Pow10(|s| - 1) - 1);
      10 * high + (s[|s| - 1] as int - '0' as int)
  }

  /** The signed exponent of an "e"/"E" suffix with at least one digit, or 0 when there is none. */
  function ExponentOf(s: string): int
  {
    if |s| >= 2 && (s[0] == 'e' || s[0] == 'E') then
      var digits := if s[1] == '-' || s[1] == '+' then s[2..] else s[1..];
      var n := DigitRun(digits);
      var v: int := DigitsValue(digits[..n]);
      if s[1] == '-' then -v else v
    else 0
  }

  /** m * 10^e, truncated toward zero when e is negative. */
  function Scaled(m: nat, e: int): nat
  {
    if e >= 0 then ScaleUp(m, e) else ScaleDown(m, -e)
  }

  function ScaleUp(m: nat, k: nat): nat
  {
    if k == 0 then m else 10 * ScaleUp(m, k - 1)
  }

  function ScaleDown(m: nat, k: nat): (r: nat)
    ensures r <= m
  {
    if k == 0 then m else ScaleDown(m / 10, k - 1)
  }

  /** The numeric prefix of an unsigned string, cut into its parts. */
  datatype Numeral = Numeral(intDigits: nat, hasDot: bool, fracDigits: nat, mantissa: string, rest: string)

  /**
   * Digits, then optionally a '.' and more digits: the mantissa holds the
   * digits on both sides of the point, rest what follows the prefix.
   */
  function Scan(u: string): (p: Numeral)
    ensures |p.mantissa| == p.intDigits + p.fracDigits
    ensures forall k :: 0 <= k < |p.mantissa| ==> IsDigit(p.mantissa[k])
    ensures !p.hasDot ==> p.fracDigits == 0
    ensures |p.mantissa| + (if p.hasDot then 1 else 0) + |p.rest| == |u|
    ensures !p.hasDot ==> p.mantissa == u[..p.intDigits] && p.rest == u[p.intDigits..]
  {
    var i := DigitRun(u);
    if i < |u| && u[i] == '.' then
      var f := DigitRun(u[i + 1..]);
      Numeral(i, true, f, u[..i] + u[i + 1..i + 1 + f], u[i + 1 + f..])
    else
      Numeral(i, false, 0, u[..i], u[i..])
  }

  /**
   * The magnitude PHP reads from the longest numeric prefix of an unsigned
   * string: digits, an optional '.' with more digits, an optional exponent,
   * truncated toward zero; 0 when the string does not start with a number.
   */
  function Magnitude(u: string): nat
  {
    var p := Scan(u);
    if p.intDigits == 0 && p.fracDigits == 0 then 0
    else Scaled(DigitsValue(p.mantissa), ExponentOf(p.rest) - p.fracDigits)
  }

  /** (int) $s: leading whitespace, an optional sign, then the numeric prefix. */
  function ToInt(s: string): int
  {
    var t := s[SpaceRun(s)..];
    var u := if t != [] && (t[0] == '-' || t[0] == '+') then t[1..] else t;
    var m: int := Magnitude(u);
    if t != [] && t[0] == '-' then -m else m
  }

  /** substr($s, 0, 3). */
  function Prefix3(s: string): (r: string)
    ensures |r| <= 3 && |r| <= |s| && r == s[..|r|]
    ensures |s| >= 3 ==> |r| == 3
  {
    if |s| <= 3 then s else s[..3]
  }

  // ---------------------------------------------------------------------
  // Three-digit codes
  // ---------------------------------------------------------------------

  function DigitChar(d: int): char
    requires 0 <= d <= 9
  {
    ('0' as int + d) as char
  }

  /** The three decimal digits of a number from 100 to 999. */
  function Digits3(n: int): string
    requires 100 <= n <= 999
  {
    [DigitChar(n / 100), DigitChar(n / 10 % 10), DigitChar(n % 10)]
  }

  lemma DigitsValue3(s: string)
    requires |s| == 3 && forall i :: 0 <= i < 3 ==> IsDigit(s[i])
    ensures DigitsValue(s) == 100 * (s[0] as int - '0' as int) + 10 * (s[1] as int - '0' as int) + (s[2] as int - '0' as int)
  {
    assert s[..2][..1] == s[..1];
    assert s[..1][..0] == [];
    assert s[..3] == s;
    assert DigitsValue(s[..1]) == s[0] as int - '0' as int;
    assert DigitsValue(s[..2]) == 10 * (s[0] as int - '0' as int) + (s[1] as int - '0' as int);
  }

  /** The cast reads the three digits of a code back as that code. */
  lemma ToIntDigits3(n: int)
    requires 100 <= n <= 999
    ensures ToInt(Digits3(n)) == n
  {
    var s := Digits3(n);
    Digits3Chars(n);
    ToIntOfDigits(s);
    DigitsValue3(s);
    Decompose3(n);
  }

  lemma Digits3Chars(n: int)
    requires 100 <= n <= 999
    ensures var s := Digits3(n);
      |s| == 3 && (forall i :: 0 <= i < 3 ==> IsDigit(s[i]))
      && s[0] as int - '0' as int == n / 100
      && s[1] as int - '0' as int == n / 10 % 10
      && s[2] as int - '0' as int == n % 10
  {
  }

  /** A string of three digits is read as their decimal value. */
  lemma ToIntOfDigits(s: string)
    requires |s| == 3 && forall i :: 0 <= i < 3 ==> IsDigit(s[i])
    ensures ToInt(s) == DigitsValue(s)
  {
    assert SpaceRun(s) == 0;
    assert s[0..] == s;
    assert DigitRun(s[2..]) == 1;
    assert DigitRun(s) == 3;
    assert s[..3] == s;
    assert Scan(s) == Numeral(3, false, 0, s, []);
  }

  lemma Decompose3(n: int)
    requires 100 <= n <= 999
    ensures n == 100 * (n / 100) + 10 * (n / 10 % 10) + n % 10
  {
    assert n == 10 * (n / 10) + n % 10;
    assert n / 10 == 10 * (n / 100) + n / 10 % 10;
  }

  /**
   * Conversely, when a code is not a multiple of 100, the only string of at
   * most three characters that the cast reads as that code is its three
   * digits: whitespace, a sign or a decimal point leave too few digits, and
   * an exponent form such as "2e2" only yields multiples of 100 or values
   * below 100.
   */
  lemma ToIntIsDigits3(s: string, n: int)
    requires |s| <= 3 && 100 <= n <= 999 && n % 100 != 0
    requires ToInt(s) == n
    ensures s == Digits3(n)
  {
    var w := SpaceRun(s);
    var t := s[w..];
    assert t != [] && t[0] != '-';
    var u := if t[0] == '+' then t[1..] else t;
    MagnitudeIsDigits3(u, n);
    assert |u| == 3;
    assert w == 0 && t[0] != '+';
  }

  /** The unsigned half of ToIntIsDigits3. */
  lemma MagnitudeIsDigits3(u: string, n: int)
    requires |u| <= 3 && 100 <= n <= 999 && n % 100 != 0
    requires Magnitude(u) == n
    ensures u == Digits3(n)
  {
    var p := Scan(u);
    if ExponentOf(p.rest) <= 0 {
      PlainMagnitude(u, n);
    } else {
      ExponentMagnitude(u);
    }
  }

  lemma PlainMagnitude(u: string, n: int)
    requires |u| <= 3 && 100 <= n <= 999
    requires Magnitude(u) == n && ExponentOf(Scan(u).rest) <= 0
    ensures u == Digits3(n)
  {
    var p := Scan(u);
    var m := DigitsValue(p.mantissa);
    assert n <= m;
    assert |p.mantissa| >= 3 by {
      if |p.mantissa| <= 2 { Pow10Le2(|p.mantissa|); }
    }
    assert !p.hasDot && p.mantissa == u;
    DigitsValue3(u);
    Digits3Unique(u, n);
  }

  /** With three characters, an exponent leaves one mantissa digit and one exponent digit. */
  lemma ExponentMagnitude(u: string)
    requires |u| <= 3 && ExponentOf(Scan(u).rest) > 0
    ensures Magnitude(u) < 100 || Magnitude(u) % 100 == 0
  {
    var p := Scan(u);
    var after := p.rest;
    if p.intDigits == 0 && p.fracDigits == 0 {
      return;
    }
    assert |after| >= 2;
    assert p.intDigits == 1 && !p.hasDot && |after| == 2;
    assert after[1] != '-' && after[1] != '+';
    assert DigitRun(after[1..]) == 1;
    assert after[1..][..1] == [after[1]];
    var e := ExponentOf(after);
    assert e == after[1] as int - '0' as int;
    ScaleUpOfDigit(DigitsValue(p.mantissa), e);
  }

  lemma Digits3Unique(u: string, n: int)
    requires |u| == 3 && forall i :: 0 <= i < 3 ==> IsDigit(u[i])
    requires 100 <= n <= 999
    requires n == 100 * (u[0] as int - '0' as int) + 10 * (u[1] as int - '0' as int) + (u[2] as int - '0' as int)
    ensures u == Digits3(n)
  {
    var a, b, c := u[0] as int - '0' as int, u[1] as int - '0' as int, u[2] as int - '0' as int;
    assert n / 100 == a by {
      assert 100 * a <= n < 100 * (a + 1);
    }
    assert n / 10 == 10 * a + b by {
      assert 10 * (10 * a + b) <= n < 10 * (10 * a + b + 1);
    }
    assert (10 * a + b) % 10 == b;
    assert n % 10 == c;
    var d := Digits3(n);
    assert d[0] == u[0] && d[1] == u[1] && d[2] == u[2];
  }

  lemma ScaleUpOfDigit(m: nat, e: nat)
    requires m <= 9 && 1 <= e <= 9
    ensures ScaleUp(m, e) < 100 || ScaleUp(m, e) % 100 == 0
  {
    if e >= 2 {
      ScaleUpSplit(m, e - 2);
    }
  }

  lemma ScaleUpSplit(m: nat, k: nat)
    ensures ScaleUp(m, k + 2) == 100 * ScaleUp(m, k)
  {
  }

  lemma Pow10Le2(k: nat)
    requires k <= 2
    ensures Pow10(k) <= 100
  {
  }
}
