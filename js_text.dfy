/**
 * The JavaScript string operations the form validators rely on: the `\s`
 * class and `trim()`, `replace(/\s+/g, "")`, `replace(/\D/g, "")`,
 * `toUpperCase()`, `split` on one character, and `length` in UTF-16
 * code units. A Dafny `char` is a Unicode scalar value; a JavaScript string
 * is its UTF-16 encoding.
 */
module JsText {

  /**
   * The `\s` class of a JavaScript regular expression, which is also the set
   * `trim()` removes: the white space and line terminator characters.
   */
  predicate IsJsSpace(c: char)
  {
    || ('\U{0009}' <= c <= '\U{000D}')
    || c == '\U{0020}' || c == '\U{00A0}' || c == '\U{1680}'
    || ('\U{2000}' <= c <= '\U{200A}')
    || c == '\U{2028}' || c == '\U{2029}' || c == '\U{202F}' || c == '\U{205F}'
    || c == '\U{3000}' || c == '\U{FEFF}'
  }

  /** `\d`: an ASCII digit. */
  predicate IsDigit(c: char)
  {
    '0' <= c <= '9'
  }

  predicate IsUpperAscii(c: char)
  {
    'A' <= c <= 'Z'
  }

  predicate IsAsciiLetter(c: char)
  {
    'A' <= c <= 'Z' || 'a' <= c <= 'z'
  }

  /** The accented Spanish letters the validators' patterns list: `ÁÉÍÓÚáéíóúÑñ`. */
  predicate IsSpanishAccented(c: char)
  {
    || c == 'Á' || c == 'É' || c == 'Í' || c == 'Ó' || c == 'Ú'
    || c == 'á' || c == 'é' || c == 'í' || c == 'ó' || c == 'ú'
    || c == 'Ñ' || c == 'ñ'
  }

  /** A character JavaScript stores in one code unit (the Basic Multilingual Plane). */
  predicate IsBmp(c: char)
  {
    c as int < 0x1_0000
  }

  /** `length`: the number of UTF-16 code units. */
  function Utf16Length(s: string): (n: nat)
    ensures |s| <= n <= 2 * |s|
    ensures n == |s| <==> forall i :: 0 <= i < |s| ==> IsBmp(s[i])
  {
    if s == [] then 0 else (if IsBmp(s[0]) then 1 else 2) + Utf16Length(s[1..])
  }

  /** All leading `\s` characters removed. */
  function TrimStart(s: string): (r: string)
    ensures r == [] || !IsJsSpace(r[0])
    ensures |r| <= |s| && r == s[|s| - |r|..]
    ensures forall i :: 0 <= i < |s| - |r| ==> IsJsSpace(s[i])
  {
    if s != [] && IsJsSpace(s[0]) then TrimStart(s[1..]) else s
  }

  /** All trailing `\s` characters removed. */
  function TrimEnd(s: string): (r: string)
    ensures r == [] || !IsJsSpace(r[|r| - 1])
    ensures |r| <= |s| && r == s[..|r|]
    ensures forall i :: |r| <= i < |s| ==> IsJsSpace(s[i])
  {
    if s != [] && IsJsSpace(s[|s| - 1]) then TrimEnd(s[..|s| - 1]) else s
  }

  /** `trim()`. */
  function Trim(s: string): string
  {
    TrimEnd(TrimStart(s))
  }

  /** `r` sits at position `k` of `s` with only white space before and after it. */
  predicate TrimmedAt(s: string, r: string, k: int)
  {
    && 0 <= k && k + |r| <= |s| && s[k..k + |r|] == r
    && (forall i :: 0 <= i < k ==> IsJsSpace(s[i]))
    && (forall i :: k + |r| <= i < |s| ==> IsJsSpace(s[i]))
  }

  /**
   * `trim()` keeps a contiguous part of the string that neither starts nor
   * ends with white space, and removes only white space around it.
   */
  lemma TrimMeaning(s: string)
    ensures var r := Trim(s);
      && (r == [] || (!IsJsSpace(r[0]) && !IsJsSpace(r[|r| - 1])))
      && exists k :: TrimmedAt(s, r, k)
  {
    TrimEnds(s);
    TrimmedAtStart(s);
  }

  /** Neither end of a trimmed string is white space. */
  lemma TrimEnds(s: string)
    ensures var r := Trim(s); r == [] || (!IsJsSpace(r[0]) && !IsJsSpace(r[|r| - 1]))
  {
    var t := TrimStart(s);
    var r := TrimEnd(t);
    assert r == t[..|r|];
    assert r != [] ==> r[0] == t[0];
  }

  /** The trimmed string sits where the leading white space ends. */
  lemma TrimmedAtStart(s: string)
    ensures TrimmedAt(s, Trim(s), |s| - |TrimStart(s)|)
  {
    var t := TrimStart(s);
    TrimmedAtShift(s, t, TrimEnd(t), |s| - |t|);
  }

  lemma TrimmedAtShift(s: string, t: string, r: string, k: int)
    requires 0 <= k <= |s| && t == s[k..] && |r| <= |t| && r == t[..|r|]
    requires forall i :: 0 <= i < k ==> IsJsSpace(s[i])
    requires forall i :: |r| <= i < |t| ==> IsJsSpace(t[i])
    ensures TrimmedAt(s, r, k)
  {
    forall i | k + |r| <= i < |s| ensures IsJsSpace(s[i]) {
      assert s[i] == t[i - k];
    }
  }

  /** Trimming twice is trimming once. */
  lemma TrimIdempotent(s: string)
    ensures Trim(Trim(s)) == Trim(s)
  {
    var r := Trim(s);
    TrimMeaning(s);
    assert TrimStart(r) == r;
    assert TrimEnd(r) == r;
  }

  /** `replace(/\s+/g, "")`: every `\s` character removed. */
  function RemoveSpaces(s: string): (r: string)
    ensures |r| <= |s|
    ensures forall i :: 0 <= i < |r| ==> !IsJsSpace(r[i])
    ensures forall c :: c in r <==> c in s && !IsJsSpace(c)
  {
    if s == [] then []
    else if IsJsSpace(s[0]) then RemoveSpaces(s[1..])
    else [s[0]] + RemoveSpaces(s[1..])
  }

  /** `replace(/\D/g, "")`: every character but an ASCII digit removed. */
  function Digits(s: string): (r: string)
    ensures |r| <= |s|
    ensures forall i :: 0 <= i < |r| ==> IsDigit(r[i])
    ensures forall c :: c in r <==> c in s && IsDigit(c)
  {
    if s == [] then []
    else if IsDigit(s[0]) then [s[0]] + Digits(s[1..])
    else Digits(s[1..])
  }

  /**
   * `replace(/\s+/g, "")` works character by character: a white-space
   * character goes, any other stays, and the pieces of a concatenation are
   * cleaned separately, so every kept character keeps its place and count.
   */
  lemma {:induction false} RemoveSpacesConcat(a: string, b: string)
    ensures RemoveSpaces(a + b) == RemoveSpaces(a) + RemoveSpaces(b)
    ensures |a| == 1 ==> RemoveSpaces(a) == (if IsJsSpace(a[0]) then [] else a)
  {
    if a == [] {
      assert a + b == b;
    } else {
      assert (a + b)[0] == a[0] && (a + b)[1..] == a[1..] + b;
      RemoveSpacesConcat(a[1..], b);
      if IsJsSpace(a[0]) {
        assert RemoveSpaces(a + b) == RemoveSpaces(a[1..] + b);
        assert RemoveSpaces(a) == RemoveSpaces(a[1..]);
      } else {
        assert RemoveSpaces(a + b) == [a[0]] + RemoveSpaces(a[1..] + b);
        assert RemoveSpaces(a) == [a[0]] + RemoveSpaces(a[1..]);
      }
    }
  }

  /**
   * `replace(/\D/g, "")` works character by character: a digit stays, any
   * other character goes, and the pieces of a concatenation are filtered
   * separately, so every digit keeps its place and count.
   */
  lemma {:induction false} DigitsConcat(a: string, b: string)
    ensures Digits(a + b) == Digits(a) + Digits(b)
    ensures |a| == 1 ==> Digits(a) == (if IsDigit(a[0]) then a else [])
  {
    if a == [] {
      assert a + b == b;
    } else {
      assert (a + b)[0] == a[0] && (a + b)[1..] == a[1..] + b;
      DigitsConcat(a[1..], b);
    }
  }

  /** A string of digits is its own digit string. */
  lemma {:induction false} DigitsOfDigits(s: string)
    requires forall i :: 0 <= i < |s| ==> IsDigit(s[i])
    ensures Digits(s) == s
  {
    if s != [] {
      DigitsOfDigits(s[1..]);
    }
  }

  /** A string without `\s` characters is left alone by the removal. */
  lemma {:induction false} RemoveSpacesOfSpaceless(s: string)
    requires forall i :: 0 <= i < |s| ==> !IsJsSpace(s[i])
    ensures RemoveSpaces(s) == s
  {
    if s != [] {
      RemoveSpacesOfSpaceless(s[1..]);
    }
  }

  /**
   * The case folding of a regular expression's `i` flag, as far as it can
   * make a character match an ASCII class: ASCII lower-case letters become
   * capitals; every other character is left alone, since the flag never lets
   * a character outside ASCII match one inside it.
   */
  function UpperChar(c: char): char
  {
    if 'a' <= c <= 'z' then (c as int - 32) as char else c
  }

  /**
   * `toUpperCase()` of one character, as far as the result can be ASCII:
   * the ASCII letters, and the characters outside ASCII whose upper case is
   * ASCII — dotless ı, long ſ, sharp ß and the Latin ligatures U+FB00 to
   * U+FB06, of which all but ı and ſ become two or three letters. Every other
   * character is left as it is.
   */
  function UpperUnits(c: char): (r: string)
    ensures 1 <= |r| <= 3
  {
    if 'a' <= c <= 'z' then [(c as int - 32) as char]
    else if c == '\U{0131}' then "I"
    else if c == '\U{017F}' then "S"
    else if c == '\U{00DF}' then "SS"
    else if c == '\U{FB00}' then "FF"
    else if c == '\U{FB01}' then "FI"
    else if c == '\U{FB02}' then "FL"
    else if c == '\U{FB03}' then "FFI"
    else if c == '\U{FB04}' then "FFL"
    else if c == '\U{FB05}' || c == '\U{FB06}' then "ST"
    else [c]
  }

  /** A character that upper-cases to itself. */
  predicate UpperFixed(c: char)
  {
    UpperUnits(c) == [c]
  }

  /**
   * `toUpperCase()`, character by character. The result is at least as long
   * as the input, upper-casing it again changes nothing, and a string of
   * characters that upper-case to themselves is returned as it is.
   */
  function ToUpperCase(s: string): (r: string)
    ensures |r| >= |s|
    ensures forall c :: c in r ==> UpperFixed(c)
    ensures (forall i :: 0 <= i < |s| ==> UpperFixed(s[i])) ==> r == s
  {
    if s == [] then []
    else
      var head := UpperUnits(s[0]);
      var rest := ToUpperCase(s[1..]);
      assert forall c :: c in head ==> UpperFixed(c);
      assert (forall i :: 0 <= i < |s| ==> UpperFixed(s[i])) ==> head == [s[0]] && s == [s[0]] + s[1..];
      head + rest
  }

  /** Upper-casing an upper-cased string changes nothing. */
  lemma UpperCaseIdempotent(s: string)
    ensures ToUpperCase(ToUpperCase(s)) == ToUpperCase(s)
  {
    var r := ToUpperCase(s);
    forall i | 0 <= i < |r| ensures UpperFixed(r[i]) {
      assert r[i] in r;
    }
  }

  /** The number of occurrences of `c`, the length of `match(/c/g) || []`. */
  function Count(s: string, c: char): (n: nat)
    ensures n <= |s|
    ensures n == 0 <==> c !in s
  {
    if s == [] then 0 else (if s[0] == c then 1 else 0) + Count(s[1..], c)
  }

  /** `split(sep)` for a one-character separator. */
  function Split(s: string, sep: char): (r: seq<string>)
    ensures |r| >= 1
  {
    if s == [] then [[]]
    else
      var rest := Split(s[1..], sep);
      if s[0] == sep then [[]] + rest else [[s[0]] + rest[0]] + rest[1..]
  }

  /** `join(sep)`, the inverse of `split`. */
  function Join(parts: seq<string>, sep: char): string
    requires |parts| >= 1
  {
    if |parts| == 1 then parts[0] else parts[0] + [sep] + Join(parts[1..], sep)
  }

  /** `split` gives one more piece than there are separators. */
  lemma {:induction false} SplitCount(s: string, sep: char)
    ensures |Split(s, sep)| == Count(s, sep) + 1
  {
    if s != [] {
      SplitCount(s[1..], sep);
    }
  }

  /** No piece of `split(sep)` holds the separator. */
  lemma {:induction false} SplitPiecesFree(s: string, sep: char)
    ensures forall k :: 0 <= k < |Split(s, sep)| ==> sep !in Split(s, sep)[k]
  {
    if s != [] {
      SplitPiecesFree(s[1..], sep);
      var rest := Split(s[1..], sep);
      var r := Split(s, sep);
      if s[0] != sep {
        forall k | 0 <= k < |r| ensures sep !in r[k] {
          if k > 0 {
            assert r[k] == rest[k];
          }
        }
      }
    }
  }

  /** Joining the pieces of `split(sep)` with `sep` gives the string back. */
  lemma {:induction false} SplitJoin(s: string, sep: char)
    ensures Join(Split(s, sep), sep) == s
  {
    if s != [] {
      SplitJoin(s[1..], sep);
      var rest := Split(s[1..], sep);
      var r := Split(s, sep);
      if s[0] == sep {
        assert r[1..] == rest;
        assert s == [] + [sep] + s[1..];
      } else {
        assert r[0] == [s[0]] + rest[0];
        if |rest| > 1 {
          assert r[1..] == rest[1..];
        }
        assert s == [s[0]] + s[1..];
      }
    }
  }

  /** The position of the first `c`. */
  function IndexOf(s: string, c: char): (p: nat)
    requires c in s
    ensures p < |s| && s[p] == c && c !in s[..p]
  {
    if s[0] == c then 0
    else
      assert c in s[1..] by {
        var i :| 0 <= i < |s| && s[i] == c;
        assert s[1..][i - 1] == c;
      }
      var p := IndexOf(s[1..], c) + 1;
      assert s[..p] == [s[0]] + s[1..][..p - 1];
      p
  }

  /** Cut at the first `c`, what lies before it is the first piece of `split(c)`. */
  lemma {:induction false} SplitFirstPiece(s: string, c: char)
    requires c in s
    ensures var p := IndexOf(s, c);
      Split(s, c)[0] == s[..p] && Split(s, c)[1..] == Split(s[p + 1..], c)
  {
    if s[0] != c {
      assert c in s[1..] by {
        var i :| 0 <= i < |s| && s[i] == c;
        assert s[1..][i - 1] == c;
      }
      SplitFirstPiece(s[1..], c);
      var p := IndexOf(s, c);
      assert IndexOf(s[1..], c) == p - 1;
      assert s[1..][p..] == s[p + 1..];
      assert s[..p] == [s[0]] + s[1..][..p - 1];
    }
  }

  /** With no `c` in the string, `split(c)` gives the whole string. */
  lemma {:induction false} SplitWithout(s: string, c: char)
    requires c !in s
    ensures Split(s, c) == [s]
  {
    if s != [] {
      assert s == [s[0]] + s[1..];
      SplitWithout(s[1..], c);
    }
  }

  /** `lastIndexOf` for one character. */
  function LastIndexOf(s: string, c: char): (p: nat)
    requires c in s
    ensures p < |s| && s[p] == c && c !in s[p + 1..]
  {
    if s[|s| - 1] == c then |s| - 1
    else
      assert c in s[..|s| - 1] by {
        var i :| 0 <= i < |s| && s[i] == c;
        assert s[..|s| - 1][i] == c;
      }
      var p := LastIndexOf(s[..|s| - 1], c);
      assert s[p + 1..] == s[..|s| - 1][p + 1..] + [s[|s| - 1]];
      p
  }

  /** The last piece of `split(c)` (what `pop()` returns) is what follows the last `c`. */
  lemma {:induction false} SplitLastPiece(s: string, c: char)
    requires c in s
    ensures var parts := Split(s, c);
      parts[|parts| - 1] == s[LastIndexOf(s, c) + 1..]
    decreases |s|
  {
    var tail := s[1..];
    if c in tail {
      SplitLastPiece(tail, c);
      LastIndexInTail(s, c, 0);
      SplitLastOfTail(s, c);
    } else {
      SplitLastPieceOnlyHead(s, c);
    }
  }

  /** When the only `c` is the first character, the last piece is the rest of the string. */
  lemma SplitLastPieceOnlyHead(s: string, c: char)
    requires c in s && c !in s[1..]
    ensures var parts := Split(s, c);
      parts[|parts| - 1] == s[LastIndexOf(s, c) + 1..]
  {
    assert s == [s[0]] + s[1..];
    SplitWithout(s[1..], c);
    LastIndexUnique(s, c, 0);
  }

  /** Past a leading `c`, or with a `c` further on, the last piece of `split(c)` is that of the tail. */
  lemma SplitLastOfTail(s: string, c: char)
    requires s != [] && (s[0] == c || c in s[1..])
    ensures var parts := Split(s, c); var rest := Split(s[1..], c);
      parts[|parts| - 1] == rest[|rest| - 1]
  {
    var rest := Split(s[1..], c);
    if s[0] == c {
      assert Split(s, c) == [[]] + rest;
    } else {
      SplitCount(s[1..], c);
      assert |rest| >= 2;
      assert Split(s, c) == [[s[0]] + rest[0]] + rest[1..];
    }
  }

  /** When a `c` follows the one at `p`, the last `c` of the string is the last `c` of what follows `p`. */
  lemma LastIndexInTail(s: string, c: char, p: nat)
    requires p < |s| && c in s[p + 1..]
    ensures LastIndexOf(s, c) == p + 1 + LastIndexOf(s[p + 1..], c)
    ensures s[LastIndexOf(s, c) + 1..] == s[p + 1..][LastIndexOf(s[p + 1..], c) + 1..]
  {
    var tail := s[p + 1..];
    var q := LastIndexOf(tail, c);
    assert s[p + 1 + q] == tail[q];
    assert s[p + 1 + q + 1..] == tail[q + 1..];
    LastIndexUnique(s, c, p + 1 + q);
  }

  /** The last `c` is the `c` after which none follows. */
  lemma LastIndexUnique(s: string, c: char, q: nat)
    requires q < |s| && s[q] == c && c !in s[q + 1..]
    ensures LastIndexOf(s, c) == q
  {
    var p := LastIndexOf(s, c);
    forall j | q < j < |s| ensures s[j] != c {
      assert s[q + 1..][j - q - 1] == s[j];
    }
    forall j | p < j < |s| ensures s[j] != c {
      assert s[p + 1..][j - p - 1] == s[j];
    }
  }
}
