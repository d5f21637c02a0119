/**
 * The check digit appended to a console serial number: characters 2 to 9 are read
 * as digits, alternately into an odd-position and an even-position sum (starting
 * with the odd one), and the digit completes 3 * even + odd to a multiple of ten.
 *
 * Characters are narrow and signed, as on the usual targets, and the string's
 * character one past its end reads as NUL. Integer remainder truncates toward zero.
 */
module Serial {
  import opened Errors
  import Numeric
  import Strings

  /** The character at index i, reading the terminating NUL at index |s|. */
  function CharAt(s: string, i: nat): char
    requires i <= |s|
  {
    if i < |s| then s[i] else 0 as char
  }

  /** A narrow character's value as a signed char. */
  function SignedCharValue(c: char): (v: int)
    ensures -128 <= v < 128
    ensures v % 0x100 == (c as int) % 0x100
  {
    var b := (c as int) % 0x100;
    if b < 0x80 then b else b - 0x100
  }

  /** The character at index i minus '0': its digit value when it is a digit. */
  function DigitValue(s: string, i: nat): (d: int)
    requires i <= |s|
    ensures '0' <= CharAt(s, i) <= '9' ==> d == CharAt(s, i) as int - '0' as int && 0 <= d <= 9
  {
    SignedCharValue(CharAt(s, i)) - '0' as int
  }

  /** C's remainder by ten, which truncates toward zero and takes the dividend's sign. */
  function TruncRem10(a: int): (r: int)
    ensures a >= 0 ==> 0 <= r < 10
    ensures a < 0 ==> -10 < r <= 0
    ensures (a - r) % 10 == 0
  {
    if a >= 0 then a % 10 else -((-a) % 10)
  }

  /**
   * The odd and even sums after the loop has visited indices 2 up to but excluding i:
   * index 2 goes to the odd sum, index 3 to the even one, and so on alternately.
   */
  function Sums(s: string, i: nat): (sums: (int, int))
    requires 2 <= i <= 10 && |s| >= 9
    ensures -176 * (i - 2) <= sums.0 <= 79 * (i - 2) && -176 * (i - 2) <= sums.1 <= 79 * (i - 2)
  {
    if i == 2 then (0, 0)
    else
      var (odd, even) := Sums(s, i - 1);
      if (i - 1) % 2 == 0 then (odd + DigitValue(s, i - 1), even)
      else (odd, even + DigitValue(s, i - 1))
  }

  /**
   * The digit that completes 3 * even + odd, computed from the truncating remainder:
   * whatever the characters, adding it makes the weighted sum a multiple of ten,
   * and it lies in 0..9 when the weighted sum is not negative.
   */
  function CheckDigitOf(s: string): (d: int)
    requires |s| >= 9
    ensures (3 * Sums(s, 10).1 + Sums(s, 10).0 + d) % 10 == 0
    ensures 3 * Sums(s, 10).1 + Sums(s, 10).0 >= 0 ==> 0 <= d <= 9
  {
    var (odd, even) := Sums(s, 10);
    var algResult := TruncRem10(3 * even + odd);
    if algResult != 0 then 10 - algResult else 0
  }

  /** The loop of the source: indices 2 to 9, the parity flag toggled after each. */
  method CalculateCheckDigit(serialNumber: string) returns (checkDigit: int)
    requires |serialNumber| >= 9
    ensures checkDigit == CheckDigitOf(serialNumber)
  {
    var oddSum, evenSum := 0, 0;
    var even := false;
    for i := 2 to 10
      invariant even <==> i % 2 == 1
      invariant (oddSum, evenSum) == Sums(serialNumber, i)
    {
      if even {
        evenSum := evenSum + DigitValue(serialNumber, i);
      } else {
        oddSum := oddSum + DigitValue(serialNumber, i);
      }
      even := !even;
    }
    var algResult := TruncRem10(3 * evenSum + oddSum);
    checkDigit := if algResult != 0 then 10 - algResult else 0;
  }

  /** The sums in closed form: indices 2, 4, 6, 8 are odd-position, 3, 5, 7, 9 even-position. */
  lemma SumsClosedForm(s: string)
    requires |s| >= 9
    ensures Sums(s, 10).0 == DigitValue(s, 2) + DigitValue(s, 4) + DigitValue(s, 6) + DigitValue(s, 8)
    ensures Sums(s, 10).1 == DigitValue(s, 3) + DigitValue(s, 5) + DigitValue(s, 7) + DigitValue(s, 9)
  {
    assert Sums(s, 3) == (DigitValue(s, 2), 0);
    assert Sums(s, 4) == (DigitValue(s, 2), DigitValue(s, 3));
    assert Sums(s, 6) == (DigitValue(s, 2) + DigitValue(s, 4), DigitValue(s, 3) + DigitValue(s, 5));
    assert Sums(s, 8).0 == DigitValue(s, 2) + DigitValue(s, 4) + DigitValue(s, 6);
    assert Sums(s, 8).1 == DigitValue(s, 3) + DigitValue(s, 5) + DigitValue(s, 7);
  }

  /**
   * When the weighted sum is negative, which only characters that are not digits
   * can make it, the truncating remainder makes the check digit 0 or a value in
   * 11..19: never a single digit other than 0.
   */
  lemma NegativeSumCheckDigit(s: string)
    requires |s| >= 9
    ensures var (odd, even) := Sums(s, 10); 3 * even + odd < 0 ==> CheckDigitOf(s) == 0 || 11 <= CheckDigitOf(s) <= 19
  {
  }

  /** Characters 2 to 9 are all digits. */
  predicate DigitsFromTwo(s: string)
  {
    |s| >= 10 && forall i :: 2 <= i < 10 ==> '0' <= s[i] <= '9'
  }

  /** For a serial number with digits at 2..9 the check digit is the unique digit completing the weighted sum. */
  lemma CheckDigitOfDigits(s: string, d: int)
    requires DigitsFromTwo(s)
    requires 0 <= d <= 9
    ensures 0 <= CheckDigitOf(s) <= 9
    ensures (3 * Sums(s, 10).1 + Sums(s, 10).0 + d) % 10 == 0 <==> d == CheckDigitOf(s)
  {
    SumsClosedForm(s);
    assert '0' <= CharAt(s, 2) <= '9' && '0' <= CharAt(s, 3) <= '9';
    assert '0' <= CharAt(s, 4) <= '9' && '0' <= CharAt(s, 5) <= '9';
    assert '0' <= CharAt(s, 6) <= '9' && '0' <= CharAt(s, 7) <= '9';
    assert '0' <= CharAt(s, 8) <= '9' && '0' <= CharAt(s, 9) <= '9';
    var (odd, even) := Sums(s, 10);
    assert 3 * even + odd >= 0;
    CompletingDigit(3 * even + odd, d);
  }

  /** For a non-negative sum, the one digit that completes it to a multiple of ten. */
  lemma CompletingDigit(w: int, d: int)
    requires w >= 0 && 0 <= d <= 9
    ensures (w + d) % 10 == 0 <==> d == (if TruncRem10(w) != 0 then 10 - TruncRem10(w) else 0)
  {
  }

  /** Only characters 2 to 9 are read: serial numbers that agree there have the same check digit. */
  lemma CheckDigitReadsTwoToNine(a: string, b: string)
    requires |a| >= 9 && |b| >= 9
    requires forall i :: 2 <= i < 10 ==> CharAt(a, i) == CharAt(b, i)
    ensures CheckDigitOf(a) == CheckDigitOf(b)
  {
    assert Sums(a, 10) == Sums(b, 10) by {
      SumsClosedForm(a);
      SumsClosedForm(b);
      assert DigitValue(a, 2) == DigitValue(b, 2) && DigitValue(a, 3) == DigitValue(b, 3);
      assert DigitValue(a, 4) == DigitValue(b, 4) && DigitValue(a, 5) == DigitValue(b, 5);
      assert DigitValue(a, 6) == DigitValue(b, 6) && DigitValue(a, 7) == DigitValue(b, 7);
      assert DigitValue(a, 8) == DigitValue(b, 8) && DigitValue(a, 9) == DigitValue(b, 9);
    }
  }

  /**
   * A nine-character serial number passes the length requirement, but its
   * character 9 is the terminating NUL, read as the digit -48: "CW1234567" gets
   * the check digit 12, which is not a digit.
   */
  lemma NineCharacterSerialExample()
    ensures CheckDigitOf("CW1234567") == 12
  {
    SumsClosedForm("CW1234567");
  }

  /**
   * A serial-number array that is still zero, as in a value-initialised record,
   * converts to the empty text, and the loop would read characters 2 to 9 of it,
   * past its end.
   */
  lemma ZeroedSerialIsTooShort()
    ensures |Strings.TextView(seq(0x10, _ => 0))| < 9
  {
    var units: seq<Numeric.u16> := seq(0x10, _ => 0);
    assert units[0] == 0;
  }

  /**
   * The check digit as the computation intends it: only a serial number with
   * digits at positions 2 to 9 has one, a single digit completing the weighted sum
   * to a multiple of ten; any other text is refused.
   */
  function CheckedCheckDigit(s: string): (r: Result<int>)
    ensures r.Ok? <==> DigitsFromTwo(s)
    ensures !r.Ok? ==> r.error == FormatError
    ensures r.Ok? ==> 0 <= r.value <= 9 && (3 * Sums(s, 10).1 + Sums(s, 10).0 + r.value) % 10 == 0
  {
    if DigitsFromTwo(s) then
      CheckDigitOfDigits(s, 0);
      Ok(CheckDigitOf(s))
    else
      Err(FormatError)
  }

  /** "CW12345678": odd sum 1 + 3 + 5 + 7 = 16, even sum 2 + 4 + 6 + 8 = 20, 76 % 10 = 6, check digit 4. */
  lemma CheckDigitExample()
    ensures CheckDigitOf("CW12345678") == 4
  {
    SumsClosedForm("CW12345678");
  }
}
