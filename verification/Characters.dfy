/** ASCII text: what hexadecimal digits write, and letters without their case. */
module Characters {
  import opened Bytes

  const LOWER_DIGITS: string := "0123456789abcdef"
  const UPPER_DIGITS: string := "0123456789ABCDEF"
  const LOWER_LETTERS: string := "abcdefghijklmnopqrstuvwxyz"
  const UPPER_LETTERS: string := "ABCDEFGHIJKLMNOPQRSTUVWXYZ"

  /** The byte b is the hexadecimal digit d, in either case. */
  predicate IsDigit(b: byte, d: nat) {
    d < 16 && (b == LOWER_DIGITS[d] as int || b == UPPER_DIGITS[d] as int)
  }

  /** HexDigit finds the place of a digit, and nothing else. */
  lemma {:induction false} DigitPlace(b: byte, d: nat)
    ensures HexDigit(b) == Some(d) <==> IsDigit(b, d)
  {
  }

  /** Digits, as any other letters, are read without their case. */
  lemma {:induction false} DigitAnyCase(b: byte)
    ensures HexDigit(b) == HexDigit(LowerCase(b))
  {
  }

  /** Two bytes are the same, or the two cases of one letter. */
  ghost predicate SameLetter(a: byte, b: byte) {
    a == b || exists k :: 0 <= k < 26 && {a, b} == {LOWER_LETTERS[k] as int, UPPER_LETTERS[k] as int}
  }

  lemma {:induction false} LettersInOrder(k: nat)
    requires k < 26
    ensures LOWER_LETTERS[k] as int == 97 + k && UPPER_LETTERS[k] as int == 65 + k
  {
  }

  /** LowerCase tells bytes apart exactly if they differ by more than their case. */
  lemma {:induction false} SameLowerCase(a: byte, b: byte)
    ensures LowerCase(a) == LowerCase(b) <==> SameLetter(a, b)
  {
    if a != b && LowerCase(a) == LowerCase(b) {
      LettersInOrder(LowerCase(a) - 97);
    }
    if SameLetter(a, b) && a != b {
      var k :| 0 <= k < 26 && {a, b} == {LOWER_LETTERS[k] as int, UPPER_LETTERS[k] as int};
      LettersInOrder(k);
      assert a in {a, b} && b in {a, b};
    }
  }

  /** s writes the number n in base 16, in any mixture of cases, with any number of zeros before it. */
  predicate Writes(s: bytes, n: nat) {
    if s == [] then n == 0 else IsDigit(s[|s| - 1], n % 16) && Writes(s[..|s| - 1], n / 16)
  }

  predicate HexDigits(digits: bytes) {
    forall k :: 0 <= k < |digits| ==> HexDigit(digits[k]).Some?
  }

  /** The number written by hexadecimal digits, most significant first. */
  function HexValue(digits: bytes): nat
    requires HexDigits(digits)
  {
    if digits == [] then 0
    else HexValue(digits[..|digits| - 1]) * 16 + HexDigit(digits[|digits| - 1]).value
  }

  /** Reading digits by HexDigit finds the number they write. */
  lemma {:induction false} ValueIsWritten(s: bytes, n: nat)
    ensures Writes(s, n) <==> HexDigits(s) && HexValue(s) == n
    decreases s
  {
    hide HexDigit, IsDigit;
    if s != [] {
      var init, last := s[..|s| - 1], s[|s| - 1];
      ValueIsWritten(init, n / 16);
      DigitPlace(last, n % 16);
      forall k | 0 <= k < |init| ensures init[k] == s[k] {}
      assert HexDigits(s) <==> HexDigits(init) && HexDigit(last).Some? by {
        forall k | 0 <= k < |s| ensures s[k] == if k < |init| then init[k] else last {}
      }
    }
  }

  // ----- decimal numbers

  predicate IsDecimal(b: byte, d: nat) {
    d < 10 && b == LOWER_DIGITS[d] as int
  }

  /** s writes the number n in base 10, with any number of zeros before it. */
  predicate WritesDecimal(s: bytes, n: nat) {
    if s == [] then n == 0 else IsDecimal(s[|s| - 1], n % 10) && WritesDecimal(s[..|s| - 1], n / 10)
  }

  lemma {:induction false} DecimalPlace(b: byte, d: nat)
    ensures IsDecimal(b, d) <==> d < 10 && b == 48 + d
  {
  }
}
