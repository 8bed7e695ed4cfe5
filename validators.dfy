/**
 * The serial-number validator: a regular-expression check that a value is
 * made of exactly six decimal digits, raising a validation error with a
 * fixed message and code otherwise.
 *
 * Modelling assumption: a digit is one of the ASCII characters '0'..'9'.
 * The pattern's end anchor is modelled as Python's `$`, which matches at the
 * end of the subject and also just before a newline that ends it.
 */
module Validators {
  import opened Wrappers

  /** The number of digits the pattern `^\d{6}$` demands. */
  const SerialDigits: nat := 6

  const InvalidSerialMessage := "Serial number must be exactly 6 digits."
  const InvalidSerialCode := "invalid_serial_number"

  /** The error the validator raises: its message and its code. */
  datatype ValidationError = ValidationError(message: string, code: string)

  predicate IsDigit(c: char) {
    '0' <= c <= '9'
  }

  predicate AllDigits(s: string) {
    forall i :: 0 <= i < |s| ==> IsDigit(s[i])
  }

  /** Exactly six decimal digits and nothing else. */
  predicate IsSixDigits(s: string) {
    |s| == SerialDigits && AllDigits(s)
  }

  /** Where Python's `$` matches: at the end, or before a final newline. */
  predicate AtEnd(rest: string) {
    rest == [] || rest == ['\n']
  }

  /** The pattern `\d{n}$` matched at the start of `s` (the `^` anchor). */
  function MatchDigitsThenEnd(s: string, n: nat): bool
    decreases n
  {
    if n == 0 then AtEnd(s)
    else |s| > 0 && IsDigit(s[0]) && MatchDigitsThenEnd(s[1..], n - 1)
  }

  /** What the pattern accepts: n digits, optionally followed by one newline. */
  lemma {:induction false} MatchDigitsThenEndMeaning(s: string, n: nat)
    ensures MatchDigitsThenEnd(s, n) <==>
              (|s| == n && AllDigits(s))
              || (|s| == n + 1 && AllDigits(s[..n]) && s[n] == '\n')
    decreases n
  {
    if n > 0 && |s| > 0 {
      MatchDigitsThenEndMeaning(s[1..], n - 1);
      assert AllDigits(s) <==> IsDigit(s[0]) && AllDigits(s[1..]) by {
        if IsDigit(s[0]) && AllDigits(s[1..]) {
          forall i | 0 <= i < |s| ensures IsDigit(s[i]) {
            if i > 0 { assert s[i] == s[1..][i - 1]; }
          }
        }
      }
      if |s| == n + 1 {
        assert s[1..][..n - 1] == s[..n][1..];
        assert s[1..][n - 1] == s[n];
        assert AllDigits(s[..n]) <==> IsDigit(s[0]) && AllDigits(s[..n][1..]) by {
          var t := s[..n];
          if IsDigit(s[0]) && AllDigits(t[1..]) {
            forall i | 0 <= i < |t| ensures IsDigit(t[i]) {
              if i > 0 { assert t[i] == t[1..][i - 1]; }
            }
          }
        }
      }
    }
  }

  /**
   * The validator: passes or raises the invalid-serial error. It reads
   * nothing but its argument and changes nothing.
   */
  function SixNumberDigitsValidator(value: string): (r: Outcome<ValidationError>)
    ensures r.Pass? <==>
              IsSixDigits(value)
              || (|value| == SerialDigits + 1 && AllDigits(value[..SerialDigits])
                  && value[SerialDigits] == '\n')
    ensures r.Fail? ==> r.error.code == InvalidSerialCode
                        && r.error.message == InvalidSerialMessage
  {
    MatchDigitsThenEndMeaning(value, SerialDigits);
    if MatchDigitsThenEnd(value, SerialDigits) then Pass
    else Fail(ValidationError(InvalidSerialMessage, InvalidSerialCode))
  }

  /** On values of at most six characters the validator accepts exactly the six-digit strings. */
  lemma ValidatorOnShortValues(value: string)
    requires |value| <= SerialDigits
    ensures SixNumberDigitsValidator(value).Pass? <==> IsSixDigits(value)
  {
  }

  /** The accepted and rejected values exercised by the validator's tests. */
  lemma ValidatorExamples()
    ensures SixNumberDigitsValidator("123456").Pass?
    ensures SixNumberDigitsValidator("654321").Pass?
    ensures SixNumberDigitsValidator("000000").Pass?
    ensures SixNumberDigitsValidator("abcdef").Fail?
    ensures SixNumberDigitsValidator("1234567").Fail?
    ensures SixNumberDigitsValidator("12345a").Fail?
    ensures SixNumberDigitsValidator("12345").Fail?
    ensures SixNumberDigitsValidator("").Fail?
    ensures SixNumberDigitsValidator("123456\n").Pass?
  {
  }
}
