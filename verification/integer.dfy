/** Strict decimal integer parsing: `ToInteger` of src/StringUtils.cpp, for a
    64-bit `intmax_t`. */
module IntegerParsing {

  /** `std::numeric_limits<intmax_t>::max()` and `lowest()` for a 64-bit `intmax_t`. */
  const Max: int := 0x7FFF_FFFF_FFFF_FFFF
  const Lowest: int := -0x8000_0000_0000_0000

  predicate InRange(v: int) {
    Lowest <= v <= Max
  }

  /** The three outcomes the source reports. */
  datatype ToIntegerResult = Success | NotANumber | Overflow

  /** What parsing a text means: the outcome and, on success, the number. */
  datatype Parsed = Parsed(result: ToIntegerResult, value: int)

  predicate IsDigit(c: char) {
    '0' <= c <= '9'
  }

  function DigitValue(c: char): int {
    c as int - '0' as int
  }

  predicate AllDigits(s: string) {
    forall i | 0 <= i < |s| :: IsDigit(s[i])
  }

  /** The number a string of decimal digits denotes, most significant first. */
  function Value(s: string): int {
    if s == [] then 0 else Value(s[..|s| - 1]) * 10 + DigitValue(s[|s| - 1])
  }

  function Signed(negative: bool, n: int): int {
    if negative then -n else n
  }

  /** C++ integer division, which truncates toward zero (Dafny's `/` is Euclidean). */
  function TruncDiv(a: int, b: int): int
    requires b > 0
  {
    if a >= 0 then a / b else -((-a) / b)
  }

  /** How many decimal digits `s` starts with. */
  function DigitRun(s: string): (n: nat)
    ensures n <= |s|
  {
    if s == [] || !IsDigit(s[0]) then 0 else 1 + DigitRun(s[1..])
  }

  /** Whether the text starts with a minus sign, and the text after it. */
  function IsNegative(text: string): bool {
    |text| > 0 && text[0] == '-'
  }

  function Unsigned(text: string): string {
    if IsNegative(text) then text[1..] else text
  }

  /** Specification of `ToInteger`, read off the text: no digits at all, or a
      `0` followed by anything, or a non-digit where the first digit belongs,
      is not a number; otherwise the run of digits decides, first by its
      range and then by whether anything follows it. */
  function Interpret(text: string): Parsed {
    var negative := IsNegative(text);
    var digits := Unsigned(text);
    if digits == [] then Parsed(NotANumber, 0)
    else if digits[0] == '0' then
      if |digits| == 1 then Parsed(Success, 0) else Parsed(NotANumber, 0)
    else if !IsDigit(digits[0]) then Parsed(NotANumber, 0)
    else
      var run := digits[..DigitRun(digits)];
      var v := Signed(negative, Value(run));
      if !InRange(v) then Parsed(Overflow, 0)
      else if |run| == |digits| then Parsed(Success, v)
      else Parsed(NotANumber, 0)
  }

  /** What state 3 of ToInteger knows after `k` digits: they start with
      `1`-`9`, they are all digits, and `value` is their signed number, which
      fits in 64 bits. */
  predicate Accumulated(text: string, k: nat, value: int) {
    var d := Unsigned(text);
    0 < k <= |d| && '1' <= d[0] <= '9' && AllDigits(d[..k]) &&
    value == Signed(IsNegative(text), Value(d[..k])) && InRange(value)
  }

  /** ToInteger (src/StringUtils.cpp:220-291). The C++ out-parameter `number`
      is passed in and handed back as `numberOut`, which is the parsed value
      on success and the untouched `number` otherwise. */
  method ToInteger(stringNumber: string, number: int) returns (result: ToIntegerResult, numberOut: int)
    ensures result == Interpret(stringNumber).result
    ensures numberOut == if result == Success then Interpret(stringNumber).value else number
  {
    var index := 0;
    var state := 0;
    var negative := false;
    var value := 0;
    // The digits start at `off`.
    ghost var off := if IsNegative(stringNumber) then 1 else 0;
    while index < |stringNumber|
      invariant 0 <= index <= |stringNumber| && 0 <= state <= 3
      invariant state == 0 ==> index == 0 && !negative && value == 0
      invariant state >= 1 ==> negative == IsNegative(stringNumber) && off <= index
      invariant state == 1 ==> index == off && value == 0
      invariant state == 2 ==> index == off + 1 && stringNumber[off] == '0' && value == 0
      invariant state == 3 ==> off < index && Accumulated(stringNumber, index - off, value)
      decreases |stringNumber| - index, if state == 0 then 1 else 0
    {
      if state == 0 {
        if stringNumber[index] == '-' {
          negative := true;
          index := index + 1;
        }
        state := 1;
      } else if state == 1 {
        FirstCharacter(stringNumber);
        if stringNumber[index] == '0' {
          state := 2;
        } else if '1' <= stringNumber[index] <= '9' {
          state := 3;
          value := DigitValue(stringNumber[index]);
          value := value * (if negative then -1 else 1);
        } else {
          return NotANumber, number;
        }
        index := index + 1;
      } else if state == 2 {
        return NotANumber, number;
      } else {
        AccumulateStep(stringNumber, index - off, value);
        if '0' <= stringNumber[index] <= '9' {
          var digit := DigitValue(stringNumber[index]);
          if negative {
            if TruncDiv(Lowest + digit, 10) > value {
              return Overflow, number;
            }
          } else {
            if TruncDiv(Max - digit, 10) < value {
              return Overflow, number;
            }
          }
          value := value * 10;
          if negative {
            value := value - digit;
          } else {
            value := value + digit;
          }
          index := index + 1;
        } else {
          return NotANumber, number;
        }
      }
    }
    if state == 3 {
      AccumulateEnd(stringNumber, index - off, value);
    }
    if state >= 2 {
      return Success, value;
    } else {
      return NotANumber, number;
    }
  }

  /** State 1 of ToInteger: the character where the first digit belongs. */
  lemma FirstCharacter(text: string)
    requires var off := if IsNegative(text) then 1 else 0; off < |text|
    ensures var off := if IsNegative(text) then 1 else 0;
      var c := text[off];
      Unsigned(text)[0] == c &&
      (c == '0' && off + 1 == |text| ==> Interpret(text) == Parsed(Success, 0)) &&
      ('1' <= c <= '9' ==> Accumulated(text, 1, Signed(IsNegative(text), DigitValue(c)))) &&
      (!IsDigit(c) ==> Interpret(text).result == NotANumber)
  {
    var d := Unsigned(text);
    if IsDigit(d[0]) {
      FirstDigit(d);
    }
  }

  /** State 3 of ToInteger, reading the digit after the first `k`: a
      non-digit makes the text not a number; a digit that trips the guard of
      src/StringUtils.cpp:265 or :269 means overflow; any other digit is
      taken in, and the arithmetic the source then does stays within 64 bits. */
  lemma AccumulateStep(text: string, k: nat, value: int)
    requires Accumulated(text, k, value)
    requires (if IsNegative(text) then 1 else 0) + k < |text|
    ensures var negative, off := IsNegative(text), if IsNegative(text) then 1 else 0;
      var c := text[off + k];
      var digit := DigitValue(c);
      (!IsDigit(c) ==> Interpret(text).result == NotANumber) &&
      (IsDigit(c) && negative && TruncDiv(Lowest + digit, 10) > value ==> Interpret(text).result == Overflow) &&
      (IsDigit(c) && !negative && TruncDiv(Max - digit, 10) < value ==> Interpret(text).result == Overflow) &&
      (IsDigit(c) && negative && TruncDiv(Lowest + digit, 10) <= value ==>
        InRange(value * 10) && Accumulated(text, k + 1, value * 10 - digit)) &&
      (IsDigit(c) && !negative && TruncDiv(Max - digit, 10) >= value ==>
        InRange(value * 10) && Accumulated(text, k + 1, value * 10 + digit))
  {
    var d := Unsigned(text);
    var off := if IsNegative(text) then 1 else 0;
    assert d[k] == text[off + k];
    var digit := DigitValue(d[k]);
    if IsDigit(d[k]) {
      NextDigit(d, k);
      NegativeGuard(value, digit);
      PositiveGuard(value, digit);
      if !InRange(Signed(IsNegative(text), Value(d[..k + 1]))) {
        OverflowAt(text, k + 1);
      }
    } else {
      EndOfRun(text, k);
    }
  }

  /** ToInteger reaching the end of the text in state 3 has read the whole number. */
  lemma AccumulateEnd(text: string, k: nat, value: int)
    requires Accumulated(text, k, value)
    requires (if IsNegative(text) then 1 else 0) + k == |text|
    ensures Interpret(text) == Parsed(Success, value)
  {
    EndOfRun(text, k);
  }

  lemma FirstDigit(d: string)
    requires |d| > 0 && IsDigit(d[0])
    ensures AllDigits(d[..1]) && Value(d[..1]) == DigitValue(d[0])
  {
    assert d[..1][..0] == [];
  }

  lemma NextDigit(d: string, k: nat)
    requires k < |d| && AllDigits(d[..k]) && IsDigit(d[k])
    ensures AllDigits(d[..k + 1])
    ensures Value(d[..k]) >= 0
    ensures Value(d[..k + 1]) == Value(d[..k]) * 10 + DigitValue(d[k])
  {
    assert d[..k + 1][..k] == d[..k];
    ValueNonNegative(d[..k]);
  }

  /** The guard at src/StringUtils.cpp:265, with C++ division, is exactly the
      test that `10 * value - digit` falls below `lowest()`. */
  lemma NegativeGuard(value: int, digit: int)
    requires 0 <= digit <= 9
    ensures TruncDiv(Lowest + digit, 10) > value <==> 10 * value - digit < Lowest
  {
    var a := -(Lowest + digit);
    var q, r := a / 10, a % 10;
    assert a == 10 * q + r && 0 <= r < 10;
    assert TruncDiv(Lowest + digit, 10) == -q;
  }

  /** The guard at src/StringUtils.cpp:269, with C++ division, is exactly the
      test that `10 * value + digit` exceeds `max()`. */
  lemma PositiveGuard(value: int, digit: int)
    requires 0 <= digit <= 9
    ensures TruncDiv(Max - digit, 10) < value <==> 10 * value + digit > Max
  {
    var a := Max - digit;
    var q, r := a / 10, a % 10;
    assert a == 10 * q + r && 0 <= r < 10;
    assert TruncDiv(Max - digit, 10) == q;
  }

  lemma {:induction false} DigitRunIs(s: string, k: nat)
    requires k <= |s| && AllDigits(s[..k]) && (k == |s| || !IsDigit(s[k]))
    ensures DigitRun(s) == k
  {
    if k > 0 {
      assert s[1..][..k - 1] == s[..k][1..];
      DigitRunIs(s[1..], k - 1);
    }
  }

  lemma {:induction false} DigitRunDigits(s: string)
    ensures AllDigits(s[..DigitRun(s)])
    ensures DigitRun(s) == |s| || !IsDigit(s[DigitRun(s)])
  {
    if s != [] && IsDigit(s[0]) {
      DigitRunDigits(s[1..]);
      assert s[..DigitRun(s)] == [s[0]] + s[1..][..DigitRun(s[1..])];
    }
  }

  lemma {:induction false} ValueNonNegative(s: string)
    requires AllDigits(s)
    ensures Value(s) >= 0
  {
    if s != [] {
      ValueNonNegative(s[..|s| - 1]);
    }
  }

  /** Reading more digits never makes the number smaller. */
  lemma {:induction false} ValueMonotone(s: string, k: nat)
    requires k <= |s| && AllDigits(s)
    ensures Value(s[..k]) <= Value(s)
    decreases |s|
  {
    if k < |s| {
      var init := s[..|s| - 1];
      assert init[..k] == s[..k];
      ValueMonotone(init, k);
      ValueNonNegative(init);
    } else {
      assert s[..k] == s;
    }
  }

  /** The first `k` digits already leave the range: the whole run does too. */
  lemma OverflowAt(t: string, k: nat)
    requires var d := Unsigned(t); 0 < k <= |d| && '1' <= d[0] <= '9' && AllDigits(d[..k])
    requires !InRange(Signed(IsNegative(t), Value(Unsigned(t)[..k])))
    ensures Interpret(t).result == Overflow
  {
    var d := Unsigned(t);
    var n := DigitRun(d);
    DigitRunDigits(d);
    assert forall i | 0 <= i < k :: IsDigit(d[i]) by {
      forall i | 0 <= i < k ensures IsDigit(d[i]) {
        assert d[..k][i] == d[i];
      }
    }
    assert k <= n;
    assert d[..n][..k] == d[..k];
    ValueMonotone(d[..n], k);
    ValueNonNegative(d[..k]);
  }

  /** A run of in-range digits that stops at index `k` decides the outcome. */
  lemma EndOfRun(t: string, k: nat)
    requires var d := Unsigned(t); 0 < k <= |d| && '1' <= d[0] <= '9' && AllDigits(d[..k])
    requires k == |Unsigned(t)| || !IsDigit(Unsigned(t)[k])
    requires InRange(Signed(IsNegative(t), Value(Unsigned(t)[..k])))
    ensures Interpret(t) ==
      if k == |Unsigned(t)| then Parsed(Success, Signed(IsNegative(t), Value(Unsigned(t)[..k])))
      else Parsed(NotANumber, 0)
  {
    DigitRunIs(Unsigned(t), k);
  }

  /** The grammar `-?(0|[1-9][0-9]*)`. */
  predicate IsUnsignedDecimal(u: string) {
    u == "0" || (|u| > 0 && u[0] != '0' && AllDigits(u))
  }

  predicate IsDecimal(t: string) {
    IsUnsignedDecimal(t) || (|t| > 0 && t[0] == '-' && IsUnsignedDecimal(t[1..]))
  }

  /** The number a text of the grammar denotes. */
  function DecimalValue(t: string): int {
    if |t| > 0 && t[0] == '-' then -Value(t[1..]) else Value(t)
  }

  /** ToInteger succeeds exactly on texts of the grammar whose number fits,
      and then yields that number. */
  lemma SuccessIffDecimalInRange(t: string)
    ensures Interpret(t).result == Success <==> IsDecimal(t) && InRange(DecimalValue(t))
    ensures Interpret(t).result == Success ==> Interpret(t).value == DecimalValue(t)
  {
    var d := Unsigned(t);
    assert IsDecimal(t) <==> IsUnsignedDecimal(d);
    assert DecimalValue(t) == Signed(IsNegative(t), Value(d));
    if d == [] {
    } else if d[0] == '0' {
      if |d| == 1 {
        assert d == "0" && d[..0] == [];
      }
    } else if IsDigit(d[0]) {
      DigitRunDigits(d);
      var n := DigitRun(d);
      if AllDigits(d) {
        DigitRunIs(d, |d|);
        assert d[..|d|] == d;
      }
      if n == |d| {
        assert d[..n] == d;
      }
    }
  }

  /** ToInteger overflows exactly when it meets a leading digit `1`-`9` and
      some prefix of the digit run, with its sign, leaves the 64-bit range. */
  lemma OverflowIffPrefixOutOfRange(t: string)
    ensures Interpret(t).result == Overflow <==>
      var d := Unsigned(t);
      |d| > 0 && '1' <= d[0] <= '9' &&
      exists k | 0 < k <= |d| :: AllDigits(d[..k]) && !InRange(Signed(IsNegative(t), Value(d[..k])))
  {
    var d := Unsigned(t);
    if Interpret(t).result == Overflow {
      DigitRunDigits(d);
      var n := DigitRun(d);
      assert 0 < n by {
        assert IsDigit(d[0]);
        assert d[..1][0] == d[0];
      }
      assert AllDigits(d[..n]) && !InRange(Signed(IsNegative(t), Value(d[..n])));
    }
    if |d| > 0 && '1' <= d[0] <= '9' &&
       exists k | 0 < k <= |d| :: AllDigits(d[..k]) && !InRange(Signed(IsNegative(t), Value(d[..k]))) {
      var k :| 0 < k <= |d| && AllDigits(d[..k]) && !InRange(Signed(IsNegative(t), Value(d[..k])));
      OverflowAt(t, k);
    }
  }

  /** The decimal digits of a natural number, as `printf("%d")` writes them. */
  function Digits(n: nat): (s: string)
    ensures |s| > 0
  {
    if n < 10 then [('0' as int + n) as char]
    else Digits(n / 10) + [('0' as int + n % 10) as char]
  }

  /** The text `printf("%jd")` writes for an integer. */
  function DecimalString(n: int): string {
    if n < 0 then "-" + Digits(-n) else Digits(n)
  }

  lemma {:induction false} DigitsFacts(n: nat)
    ensures AllDigits(Digits(n)) && Value(Digits(n)) == n
    ensures Digits(n)[0] == '0' <==> n == 0
    ensures n == 0 ==> Digits(n) == "0"
  {
    if n >= 10 {
      DigitsFacts(n / 10);
      var s := Digits(n);
      assert s[..|s| - 1] == Digits(n / 10);
    }
  }

  /** Parsing the decimal text of any integer gives that integer back when it
      fits in 64 bits, and reports overflow when it does not. */
  lemma ParseDecimalString(n: int)
    ensures Interpret(DecimalString(n)) == if InRange(n) then Parsed(Success, n) else Parsed(Overflow, 0)
  {
    var t := DecimalString(n);
    var m := if n < 0 then -n else n;
    DigitsFacts(m);
    assert Unsigned(t) == Digits(m);
    if InRange(n) {
      SuccessIffDecimalInRange(t);
    } else {
      var d := Digits(m);
      assert d[..|d|] == d;
      OverflowAt(t, |d|);
    }
  }

  /** The empty text, a bare sign, a leading zero, a plus sign and a trailing
      letter are all rejected; `0` and `-0` both read as zero. */
  lemma SmallExamples()
    ensures Interpret("0") == Parsed(Success, 0)
    ensures Interpret("-0") == Parsed(Success, 0)
    ensures Interpret("42") == Parsed(Success, 42)
    ensures Interpret("-42") == Parsed(Success, -42)
    ensures Interpret("").result == NotANumber
    ensures Interpret("-").result == NotANumber
    ensures Interpret("00").result == NotANumber
    ensures Interpret("+5").result == NotANumber
    ensures Interpret("12a").result == NotANumber
  {
    assert Unsigned("-0") == "0";
    assert Unsigned("-") == [];
    ParseDecimalString(42);
    ParseDecimalString(-42);
    assert DecimalString(42) == "42";
    assert DecimalString(-42) == "-42";
    assert Unsigned("12a") == "12a";
    assert "12a"[..2] == "12";
    assert "12"[..1] == "1" && "1"[..0] == [];
    assert Value("12") == 12;
    EndOfRun("12a", 2);
  }

  /** The boundary vectors of the source's unit test
      (test/src/StringUtilsTests.cpp:119-164): the texts `printf` writes for
      `max()` and `lowest()` parse back, and the same texts moved one past
      either end overflow. */
  lemma BoundaryExamples()
    ensures Interpret(DecimalString(Max)) == Parsed(Success, Max)
    ensures Interpret(DecimalString(Lowest)) == Parsed(Success, Lowest)
    ensures Interpret(DecimalString(Max + 1)).result == Overflow
    ensures Interpret(DecimalString(Lowest - 1)).result == Overflow
  {
    ParseDecimalString(Max);
    ParseDecimalString(Lowest);
    ParseDecimalString(Max + 1);
    ParseDecimalString(Lowest - 1);
  }
}
