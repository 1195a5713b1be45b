/**
 * The CURP validators of static/js/validador.js: `curpDateCheck` (the full
 * pattern with the state codes, then the embedded birth date read back
 * through a JavaScript `Date`) and the `curpCheck` method that runs the
 * basic pattern before it.
 */
module Curp {
  import opened JsText

  /** The state codes the pattern lists, `AS` to `ZS` and `NE` (born abroad). */
  const StateCodes: seq<(char, char)> :=
    [('A', 'S'), ('B', 'C'), ('B', 'S'), ('C', 'C'), ('C', 'L'), ('C', 'M'), ('C', 'S'), ('C', 'H'), ('D', 'F'), ('D', 'G'), ('G', 'T'),
     ('G', 'R'), ('H', 'G'), ('J', 'C'), ('M', 'C'), ('M', 'N'), ('M', 'S'), ('N', 'T'), ('N', 'L'), ('O', 'C'), ('P', 'L'), ('Q', 'T'),
     ('Q', 'R'), ('S', 'P'), ('S', 'L'), ('S', 'R'), ('T', 'C'), ('T', 'S'), ('T', 'L'), ('V', 'Z'), ('Y', 'N'), ('Z', 'S'), ('N', 'E')]

  /** `toUpperCase().replace(/\s+/g, "")`. */
  function Normalize(s: string): string
  {
    RemoveSpaces(ToUpperCase(s))
  }

  /** `[A-Z]` under the `i` flag. */
  predicate Letter(c: char)
  {
    IsAsciiLetter(c)
  }

  /** `[HM]` under the `i` flag. */
  predicate SexLetter(c: char)
  {
    UpperChar(c) == 'H' || UpperChar(c) == 'M'
  }

  /**
   * The pattern of `curpDateCheck`: four letters, six digits, H or M, a state
   * code, three letters, a letter or digit, and a digit.
   */
  predicate CurpShape(s: string)
  {
    && |s| == 18
    && (forall i :: 0 <= i < 4 ==> Letter(s[i]))
    && (forall i :: 4 <= i < 10 ==> IsDigit(s[i]))
    && SexLetter(s[10])
    && (UpperChar(s[11]), UpperChar(s[12])) in StateCodes
    && (forall i :: 13 <= i < 16 ==> Letter(s[i]))
    && (Letter(s[16]) || IsDigit(s[16]))
    && IsDigit(s[17])
  }

  /** The `basicRe` pattern of `curpCheck`: as above, with any two letters in place of the state code. */
  predicate BasicShape(s: string)
  {
    && |s| == 18
    && (forall i :: 0 <= i < 4 ==> Letter(s[i]))
    && (forall i :: 4 <= i < 10 ==> IsDigit(s[i]))
    && SexLetter(s[10])
    && (forall i :: 11 <= i < 16 ==> Letter(s[i]))
    && (Letter(s[16]) || IsDigit(s[16]))
    && IsDigit(s[17])
  }

  /** `parseInt` of two digits. */
  function TwoDigits(a: char, b: char): int
  {
    (a as int - '0' as int) * 10 + (b as int - '0' as int)
  }

  /** The year a two-digit `yy` stands for: up to 29 in the 2000s, otherwise in the 1900s. */
  function Century(yy: int): (year: int)
    ensures 0 <= yy <= 29 ==> year == 2000 + yy
    ensures 30 <= yy <= 99 ==> year == 1900 + yy
  {
    if yy <= 29 then 2000 + yy else 1900 + yy
  }

  // ---------------------------------------------------------------------
  // The Gregorian calendar and the JavaScript Date constructor
  // ---------------------------------------------------------------------

  datatype Civil = Civil(year: int, month: int, day: int)

  predicate IsLeap(y: int)
  {
    y % 4 == 0 && (y % 100 != 0 || y % 400 == 0)
  }

  function DaysInMonth(y: int, m: int): int
    requires 1 <= m <= 12
  {
    if m == 2 then (if IsLeap(y) then 29 else 28)
    else if m == 4 || m == 6 || m == 9 || m == 11 then 30
    else 31
  }

  /** A real date: a month 1..12 and a day within it. */
  predicate ValidCivil(d: Civil)
  {
    1 <= d.month <= 12 && 1 <= d.day <= DaysInMonth(d.year, d.month)
  }

  function NextDay(d: Civil): (r: Civil)
    requires ValidCivil(d)
    ensures ValidCivil(r)
  {
    if d.day < DaysInMonth(d.year, d.month) then d.(day := d.day + 1)
    else if d.month < 12 then Civil(d.year, d.month + 1, 1)
    else Civil(d.year + 1, 1, 1)
  }

  function PrevDay(d: Civil): (r: Civil)
    requires ValidCivil(d)
    ensures ValidCivil(r)
  {
    if d.day > 1 then d.(day := d.day - 1)
    else if d.month > 1 then Civil(d.year, d.month - 1, DaysInMonth(d.year, d.month - 1))
    else Civil(d.year - 1, 12, 31)
  }

  /** The date `k` days after `d` (before it when `k` is negative). */
  function AddDays(d: Civil, k: int): (r: Civil)
    requires ValidCivil(d)
    ensures ValidCivil(r)
    decreases if k < 0 then -k else k
  {
    if k == 0 then d
    else if k > 0 then AddDays(NextDay(d), k - 1)
    else AddDays(PrevDay(d), k + 1)
  }

  /**
   * `new Date(year, monthIndex, day)` read back through `getFullYear`,
   * `getMonth() + 1` and `getDate`: a year from 0 to 99 means 1900 + year,
   * the month index is folded into the year, and the day counts from the
   * first of that month.
   */
  function JsDate(year: int, monthIndex: int, day: int): Civil
  {
    var y := if 0 <= year <= 99 then 1900 + year else year;
    var first := Civil(y + monthIndex / 12, monthIndex % 12 + 1, 1);
    AddDays(first, day - 1)
  }

  /** Within a month, adding days only moves the day number. */
  lemma {:induction false} AddDaysWithinMonth(d: Civil, k: nat)
    requires ValidCivil(d) && d.day + k <= DaysInMonth(d.year, d.month)
    ensures AddDays(d, k) == d.(day := d.day + k)
    decreases k
  {
    if k > 0 {
      AddDaysWithinMonth(NextDay(d), k - 1);
    }
  }

  /**
   * The date test of `curpDateCheck`: `new Date(year, mm - 1, dd)` reads back
   * as (year, mm, dd) exactly when that is a real Gregorian date, so month 13,
   * day 0, 30 February and 29 February of a common year all fail.
   */
  lemma DateRoundTripIff(year: int, mm: int, dd: int)
    requires year >= 100
    ensures JsDate(year, mm - 1, dd) == Civil(year, mm, dd) <==> ValidCivil(Civil(year, mm, dd))
  {
    if ValidCivil(Civil(year, mm, dd)) {
      assert (mm - 1) / 12 == 0 && (mm - 1) % 12 + 1 == mm;
      AddDaysWithinMonth(Civil(year, mm, 1), dd - 1);
    }
  }

  lemma LeapDayExamples()
    ensures ValidCivil(Civil(2000, 2, 29)) && ValidCivil(Civil(2024, 2, 29))
    ensures !ValidCivil(Civil(1900, 2, 29)) && !ValidCivil(Civil(2023, 2, 29))
    ensures !ValidCivil(Civil(2024, 2, 30)) && !ValidCivil(Civil(2024, 13, 1)) && !ValidCivil(Civil(2024, 4, 31))
  {
  }

  // ---------------------------------------------------------------------
  // curpDateCheck and curpCheck
  // ---------------------------------------------------------------------

  /** The outcomes of `curpDateCheck`, one per reason text. */
  datatype CurpVerdict = CurpOk | BadFormat | BadDate | BadSex

  /** The birth date a CURP of the right shape carries: (year, month, day). */
  function BirthDate(s: string): Civil
    requires |s| == 18
  {
    Civil(Century(TwoDigits(s[4], s[5])), TwoDigits(s[6], s[7]), TwoDigits(s[8], s[9]))
  }

  /** What `curpDateCheck` decides once the string is upper-cased and without white space. */
  function Verdict(s: string): CurpVerdict
  {
    if !CurpShape(s) then BadFormat
    else
      var b := BirthDate(s);
      if JsDate(b.year, b.month - 1, b.day) != b then BadDate
      else if UpperChar(s[10]) != 'H' && UpperChar(s[10]) != 'M' then BadSex
      else CurpOk
  }

  /** curpDateCheck. */
  function CurpDateCheck(curp: string): CurpVerdict
  {
    Verdict(Normalize(curp))
  }

  /** A date with a two-digit year: the test is the Gregorian one. */
  lemma BirthDateTest(s: string)
    requires CurpShape(s)
    ensures var b := BirthDate(s);
      JsDate(b.year, b.month - 1, b.day) == b <==> ValidCivil(b)
  {
    var b := BirthDate(s);
    assert IsDigit(s[4]) && IsDigit(s[5]);
    DateRoundTripIff(b.year, b.month, b.day);
  }

  /**
   * `curpDateCheck` accepts exactly the CURPs that, upper-cased and without
   * white space, have the full pattern and a real birth date; it fails the
   * pattern first and the date second, and never for the sex letter.
   */
  lemma CurpDateCheckMeaning(curp: string)
    ensures var s := Normalize(curp);
      && (CurpDateCheck(curp) == CurpOk <==> CurpShape(s) && ValidCivil(BirthDate(s)))
      && (CurpDateCheck(curp) == BadFormat <==> !CurpShape(s))
      && CurpDateCheck(curp) != BadSex
  {
    var s := Normalize(curp);
    if CurpShape(s) {
      BirthDateTest(s);
    }
  }

  /** Every state code is two letters, so the full pattern implies the basic one. */
  lemma FullShapeIsBasic(s: string)
    requires CurpShape(s)
    ensures BasicShape(s)
  {
    assert forall k :: 0 <= k < |StateCodes| ==> IsUpperAscii(StateCodes[k].0) && IsUpperAscii(StateCodes[k].1);
  }

  /** curpCheck. */
  function CurpCheck(value: string): bool
  {
    var raw := Normalize(value);
    if !BasicShape(raw) then false
    else CurpDateCheck(raw) == CurpOk
  }

  /** Normalizing is idempotent: `curpDateCheck` sees the same string `curpCheck` built. */
  lemma NormalizeIdempotent(s: string)
    ensures Normalize(Normalize(s)) == Normalize(s)
  {
    var n := Normalize(s);
    forall i | 0 <= i < |n| ensures UpperFixed(n[i]) {
      assert n[i] in ToUpperCase(s);
    }
    assert ToUpperCase(n) == n;
    RemoveSpacesOfSpaceless(n);
  }

  /**
   * `curpCheck` accepts exactly the values that, upper-cased and without
   * white space, are 18 characters of the full pattern with a real birth
   * date; the basic pattern it runs first adds nothing.
   */
  lemma CurpCheckMeaning(value: string)
    ensures var s := Normalize(value);
      CurpCheck(value) <==> CurpShape(s) && ValidCivil(BirthDate(s))
  {
    NormalizeIdempotent(value);
    CurpDateCheckMeaning(Normalize(value));
    if CurpShape(Normalize(value)) {
      FullShapeIsBasic(Normalize(value));
    }
  }

  /** Case and white space do not matter to `curpCheck`. */
  lemma CurpCheckIgnoresCaseAndSpaces(value: string)
    ensures CurpCheck(Normalize(value)) == CurpCheck(value)
  {
    NormalizeIdempotent(value);
  }

  /**
   * `toUpperCase` turns dotless ı into I, long ſ into S, sharp ß into SS and
   * the ligature ﬁ into FI before the patterns are tried, so `curpCheck`
   * treats a CURP written with them as the one written with those capitals.
   */
  lemma DotlessIAccepted(rest: string)
    ensures CurpCheck(['\U{0131}'] + rest) == CurpCheck("I" + rest)
  {
    SameFront(['\U{0131}'], "I", rest);
  }

  lemma LongSAccepted(rest: string)
    ensures CurpCheck(['\U{017F}'] + rest) == CurpCheck("S" + rest)
  {
    SameFront(['\U{017F}'], "S", rest);
  }

  lemma SharpSAccepted(rest: string)
    ensures CurpCheck(['\U{00DF}'] + rest) == CurpCheck("SS" + rest)
  {
    var ss := "SS";
    assert UpperUnits('\U{00DF}') == ss;
    assert IsUpperAscii(ss[0]) && IsUpperAscii(ss[1]);
    SameFront(['\U{00DF}'], ss, rest);
  }

  lemma FiLigatureAccepted(rest: string)
    ensures CurpCheck(['\U{FB01}'] + rest) == CurpCheck("FI" + rest)
  {
    var fi := "FI";
    assert UpperUnits('\U{FB01}') == fi;
    assert IsUpperAscii(fi[0]) && IsUpperAscii(fi[1]);
    SameFront(['\U{FB01}'], fi, rest);
  }

  /** A character and the capitals it upper-cases to get the same verdict before any rest. */
  lemma SameFront(a: string, b: string, rest: string)
    requires |a| == 1 && UpperUnits(a[0]) == b
    requires forall i :: 0 <= i < |b| ==> IsUpperAscii(b[i])
    ensures CurpCheck(a + rest) == CurpCheck(b + rest)
  {
    assert a[1..] == [];
    assert ToUpperCase(a) == UpperUnits(a[0]) + ToUpperCase(a[1..]);
    forall i | 0 <= i < |b| ensures UpperFixed(b[i]) {
      assert b[i] as int < 128;
    }
    UpperCaseConcat(a, rest);
    UpperCaseConcat(b, rest);
    assert Normalize(a + rest) == Normalize(b + rest);
  }

  /** Upper-casing works character by character, so it distributes over concatenation. */
  lemma {:induction false} UpperCaseConcat(a: string, b: string)
    ensures ToUpperCase(a + b) == ToUpperCase(a) + ToUpperCase(b)
  {
    if a == [] {
      assert a + b == b;
    } else {
      assert (a + b)[0] == a[0] && (a + b)[1..] == a[1..] + b;
      UpperCaseConcat(a[1..], b);
    }
  }
}
