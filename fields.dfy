/**
 * The form-field rules of static/js/validador.js: `nameCheck` for names and
 * surnames, `phoneCheck` for the landline and `celularCheck` for the mobile
 * number. Each is a chain of tests that refuses at the first failure.
 */
module Fields {
  import opened JsText

  // ---------------------------------------------------------------------
  // nameCheck
  // ---------------------------------------------------------------------

  /** A letter of `[A-Za-zÁÉÍÓÚáéíóúÑñ]`. */
  predicate NameLetter(c: char)
  {
    IsAsciiLetter(c) || IsSpanishAccented(c)
  }

  /** `[A-Za-z0-9ÁÉÍÓÚáéíóúÑñ]`. */
  predicate BaseChar(c: char)
  {
    NameLetter(c) || IsDigit(c)
  }

  /** `[A-Za-zÁÉÍÓÚáéíóúÑñüÜ\s'\-]`. */
  predicate NameChar(c: char)
  {
    NameLetter(c) || c == 'ü' || c == 'Ü' || c == '\'' || c == '-' || IsJsSpace(c)
  }

  /** `/ {2,}/`: two spaces (U+0020) in a row. */
  predicate HasDoubleSpace(s: string)
  {
    exists i :: 0 <= i < |s| - 1 && s[i] == ' ' && s[i + 1] == ' '
  }

  /**
   * `/^(.)\1{3,}$/` on the UTF-16 code units: one code unit four times or
   * more. A character outside the Basic Multilingual Plane is two different
   * code units, so only a string of one such repeated BMP character matches.
   */
  predicate Repeated(w: string)
  {
    |w| >= 4 && IsBmp(w[0]) && forall i :: 0 <= i < |w| ==> w[i] == w[0]
  }

  /** nameCheck: the rules below on the trimmed value. */
  function NameCheck(value: string): bool
  {
    NameRules(Trim(value))
  }

  /** The tests of `nameCheck` on the trimmed value `v`, in their order. */
  function NameRules(v: string): bool
  {
    if v == [] then false
    else if forall i :: 0 <= i < |v| ==> IsDigit(v[i]) then false
    else if forall i :: 0 <= i < |v| ==> !BaseChar(v[i]) then false
    else if HasDoubleSpace(v) then false
    else if Repeated(RemoveSpaces(v)) then false
    else if !(Utf16Length(v) >= 2 && forall i :: 0 <= i < |v| ==> NameChar(v[i])) then false
    else true
  }

  /** The names `nameCheck` is meant to accept, after trimming. */
  predicate NameSpec(v: string)
  {
    && |v| >= 2
    && (forall i :: 0 <= i < |v| ==> NameChar(v[i]))
    && (exists i :: 0 <= i < |v| && NameLetter(v[i]))
    && !HasDoubleSpace(v)
    && !Repeated(RemoveSpaces(v))
  }

  /** Every character of the name class is stored in one code unit. */
  lemma NameCharsAreBmp(v: string)
    requires forall i :: 0 <= i < |v| ==> NameChar(v[i])
    ensures Utf16Length(v) == |v|
  {
    forall i | 0 <= i < |v| ensures IsBmp(v[i]) {
      NameCharIsBmp(v[i]);
    }
  }

  lemma NameCharIsBmp(c: char)
    requires NameChar(c)
    ensures IsBmp(c)
  {
    assert c as int <= 0xFEFF;
  }

  /**
   * `nameCheck` accepts exactly the values whose trimmed form has two
   * characters or more, all of them letters, accented letters, white space,
   * apostrophes or hyphens, at least one letter, no two spaces in a row, and
   * is not one character repeated four times or more once white space is
   * removed. The all-digits test and the no-letter-or-digit test refuse
   * nothing the last test would not refuse as well, except through the
   * letter they demand.
   */
  lemma NameCheckMeaning(value: string)
    ensures NameCheck(value) <==> NameSpec(Trim(value))
  {
    NameRulesMeaning(Trim(value));
  }

  /** The rules, on a trimmed value, accept exactly what `NameSpec` describes. */
  lemma NameRulesMeaning(v: string)
    ensures NameRules(v) <==> NameSpec(v)
  {
    if forall i :: 0 <= i < |v| ==> NameChar(v[i]) {
      NameCharsAreBmp(v);
      if exists i :: 0 <= i < |v| && NameLetter(v[i]) {
        var i :| 0 <= i < |v| && NameLetter(v[i]);
        assert !IsDigit(v[i]) && BaseChar(v[i]);
      }
      if exists i :: 0 <= i < |v| && BaseChar(v[i]) {
        var i :| 0 <= i < |v| && BaseChar(v[i]);
        assert NameChar(v[i]) && NameLetter(v[i]);
      }
    }
  }

  /** Trimming first changes nothing: `nameCheck` trims itself. */
  lemma NameCheckTrimmed(value: string)
    ensures NameCheck(Trim(value)) == NameCheck(value)
  {
    TrimIdempotent(value);
  }

  // ---------------------------------------------------------------------
  // phoneCheck and celularCheck
  // ---------------------------------------------------------------------

  /** phoneCheck: 7 to 10 digits once everything else is dropped, not all zeros. */
  function PhoneCheck(value: string): bool
  {
    var digits := Digits(value);
    if |digits| < 7 || |digits| > 10 then false
    else if forall i :: 0 <= i < |digits| ==> digits[i] == '0' then false
    else true
  }

  /** celularCheck: exactly 10 digits once everything else is dropped, not one digit ten times. */
  function CelularCheck(value: string): bool
  {
    var digits := Digits(value);
    if |digits| != 10 then false
    else if forall i :: 0 <= i < |digits| ==> digits[i] == digits[0] then false
    else true
  }

  /** Only the digits of a phone number count: separators, spaces and letters are ignored. */
  lemma PhoneCheckDigitsOnly(value: string)
    ensures PhoneCheck(Digits(value)) == PhoneCheck(value)
    ensures CelularCheck(Digits(value)) == CelularCheck(value)
  {
    DigitsOfDigits(Digits(value));
  }

  /** Every number `celularCheck` accepts `phoneCheck` accepts too, but not the other way round. */
  lemma CelularIsPhone(value: string)
    ensures CelularCheck(value) ==> PhoneCheck(value)
    ensures PhoneCheck("3312345") && !CelularCheck("3312345")
  {
    var d := Digits(value);
    if CelularCheck(value) {
      var i :| 0 <= i < |d| && d[i] != d[0];
      assert d[i] != '0' || d[0] != '0';
    }
    DigitsOfDigits("3312345");
  }
}
