/** parse_long_bounded of src/wifi.c, on top of the C library's strtol. `long` has 32 bits on the Pico. */
module Numbers {
  import opened Bytes

  const LONG_MAX := 0x7fff_ffff
  const LONG_MIN := -0x8000_0000

  predicate IsSpace(c: char) {
    c == ' ' || 0x09 <= c as int <= 0x0d
  }

  predicate IsDigit(c: char) {
    '0' <= c <= '9'
  }

  predicate AllSpace(s: string) {
    forall i :: 0 <= i < |s| ==> IsSpace(s[i])
  }

  predicate AllDigits(s: string) {
    forall i :: 0 <= i < |s| ==> IsDigit(s[i])
  }

  function Value(digits: string): nat
    requires AllDigits(digits)
  {
    if digits == [] then 0
    else Value(digits[..|digits| - 1]) * 10 + (digits[|digits| - 1] as int - '0' as int)
  }

  function Signed(sign: string, digits: string): int
    requires AllDigits(digits)
  {
    if sign == "-" then 0 - Value(digits) else Value(digits) as int
  }

  function Clamp(v: int): int {
    if v > LONG_MAX then LONG_MAX else if v < LONG_MIN then LONG_MIN else v
  }

  function SkipSpace(s: string, i: nat): (r: nat)
    requires i <= |s|
    ensures i <= r <= |s| && AllSpace(s[i..r]) && (r < |s| ==> !IsSpace(s[r]))
    decreases |s| - i
  {
    if i < |s| && IsSpace(s[i]) then SkipSpace(s, i + 1) else i
  }

  function SkipDigits(s: string, i: nat): (r: nat)
    requires i <= |s|
    ensures i <= r <= |s| && AllDigits(s[i..r]) && (r < |s| ==> !IsDigit(s[r]))
    decreases |s| - i
  {
    if i < |s| && IsDigit(s[i]) then SkipDigits(s, i + 1) else i
  }

  predicate IsSign(c: char) {
    c == '+' || c == '-'
  }

  /** strtol in base 10: the value, and how many characters were used (0 if there is no number). */
  function StrToL(s: string): (r: (int, nat)) {
    var i := SkipSpace(s, 0);
    var j := if i < |s| && IsSign(s[i]) then i + 1 else i;
    var k := SkipDigits(s, j);
    if k == j then (0, 0)
    else (Clamp(Signed(s[i..j], s[j..k])), k)
  }

  /** parse_long_bounded: the value, if the whole string is a number within the bounds. */
  function ParseLongBounded(value: string, min: int, max: int): Option<int> {
    var (parsed, end) := StrToL(value);
    if value == "" then None
    else if end != |value| then None
    else if parsed < min || parsed > max then None
    else Some(parsed)
  }

  // ----- what is accepted -----

  /** White space is a space, or one of tab, line feed, vertical tab, form feed and carriage return. */
  lemma SpacesAre(c: char)
    ensures IsSpace(c) <==> c in {' ', '\t', '\n', 11 as char, 12 as char, '\r'}
  {
  }

  predicate IsNumber(s: string, space: string, sign: string, digits: string) {
    && s == space + sign + digits
    && AllSpace(space) && sign in {"", "+", "-"} && AllDigits(digits) && digits != ""
  }

  lemma ScanNumber(s: string, space: string, sign: string, digits: string)
    requires IsNumber(s, space, sign, digits)
    ensures StrToL(s) == (Clamp(Signed(sign, digits)), |s|)
  {
    var n, m := |space|, |space| + |sign|;
    assert forall i :: 0 <= i < n ==> s[i] == space[i];
    assert sign != "" ==> s[n] == sign[0];
    assert s[m..|s|] == digits && s[n..m] == sign && s[m] == digits[0];
    SkipSpaceTo(s, 0, n);
    assert IsSign(s[n]) <==> sign != "";
    SkipDigitsTo(s, m, |s|);
  }

  lemma {:induction false} SkipSpaceTo(s: string, i: nat, n: nat)
    requires i <= n <= |s| && (forall k :: i <= k < n ==> IsSpace(s[k])) && (n < |s| ==> !IsSpace(s[n]))
    ensures SkipSpace(s, i) == n
    decreases n - i
  {
    if i < n { SkipSpaceTo(s, i + 1, n); }
  }

  lemma {:induction false} SkipDigitsTo(s: string, i: nat, n: nat)
    requires i <= n <= |s| && AllDigits(s[i..n]) && n == |s|
    ensures SkipDigits(s, i) == n
    decreases n - i
  {
    if i < n {
      assert s[i] == s[i..n][0] && s[i..n][1..] == s[i + 1..n];
      SkipDigitsTo(s, i + 1, n);
    }
  }

  lemma ThreeParts(s: string, i: nat, j: nat)
    requires i <= j <= |s|
    ensures s == s[0..i] + s[i..j] + s[j..|s|]
  {
  }

  /** Accepted are exactly the strings of optional white space, an optional sign and at least one digit
      whose value, saturated to the range of `long`, lies within the bounds. */
  lemma ParsesExactlyNumbers(s: string, min: int, max: int, v: int)
    ensures ParseLongBounded(s, min, max) == Some(v)
            <==> min <= v <= max && exists space, sign, digits :: IsNumber(s, space, sign, digits)
                                                                 && v == Clamp(Signed(sign, digits))
  {
    if ParseLongBounded(s, min, max) == Some(v) {
      var i := SkipSpace(s, 0);
      var j := if i < |s| && IsSign(s[i]) then i + 1 else i;
      var space, sign, digits := s[0..i], s[i..j], s[j..|s|];
      ThreeParts(s, i, j);
      assert sign == "" || sign == [s[i]];
      assert IsNumber(s, space, sign, digits) && v == Clamp(Signed(sign, digits));
    }
    forall space, sign, digits | IsNumber(s, space, sign, digits) && v == Clamp(Signed(sign, digits)) && min <= v <= max
      ensures ParseLongBounded(s, min, max) == Some(v)
    {
      ScanNumber(s, space, sign, digits);
    }
  }

  // ----- round trip -----

  function Digits(n: nat): (r: string)
    ensures AllDigits(r) && r != ""
  {
    var last := (n % 10 + '0' as int) as char;
    if n < 10 then [last] else Digits(n / 10) + [last]
  }

  function Decimal(n: int): string {
    if n < 0 then "-" + Digits(-n) else "" + Digits(n)
  }

  lemma {:induction false} ValueOfDigits(n: nat)
    ensures Value(Digits(n)) == n
  {
    var r := Digits(n);
    if n >= 10 {
      ValueOfDigits(n / 10);
      assert r[..|r| - 1] == Digits(n / 10);
    } else {
      assert r[..|r| - 1] == "";
    }
  }

  lemma DigitsParse(sign: string, m: nat, n: int, min: int, max: int)
    requires (sign == "" && n == m) || (sign == "-" && n + m == 0)
    requires LONG_MIN <= n <= LONG_MAX && min <= n <= max
    ensures ParseLongBounded(sign + Digits(m), min, max) == Some(n)
  {
    ValueOfDigits(m);
    assert sign + Digits(m) == "" + sign + Digits(m);
    ScanNumber(sign + Digits(m), "", sign, Digits(m));
  }

  /** A number printed in decimal is read back, if it lies within the bounds and fits a `long`. */
  lemma DecimalRoundTrip(n: int, min: int, max: int)
    requires LONG_MIN <= n <= LONG_MAX && min <= n <= max
    ensures ParseLongBounded(Decimal(n), min, max) == Some(n)
  {
    if n < 0 {
      DigitsParse("-", -n, n, min, max);
    } else {
      DigitsParse("", n, n, min, max);
    }
  }

  lemma {:induction false} DigitsLength(n: nat)
    ensures n < 10 ==> |Digits(n)| == 1
    ensures n < 100 ==> |Digits(n)| <= 2
    ensures n < 1_000 ==> |Digits(n)| <= 3
    ensures n < 10_000 ==> |Digits(n)| <= 4
    ensures n < 100_000 ==> |Digits(n)| <= 5
  {
    if n >= 10 {
      DigitsLength(n / 10);
    }
  }

  lemma DecimalLength(n: int)
    ensures -100_000 < n < 100_000 ==> |Decimal(n)| <= 6
  {
    DigitsLength(if n < 0 then -n else n);
  }

  lemma DecimalIsPlain(n: int)
    ensures forall i :: 0 <= i < |Decimal(n)| ==> IsDigit(Decimal(n)[i]) || Decimal(n)[i] == '-'
    ensures Decimal(n) != ""
  {
  }
}
