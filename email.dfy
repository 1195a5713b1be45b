/**
 * `validateEmailAdvanced` of static/js/validador.js: a chain of tests, each
 * with its own reason, ending in the general `local@domain.tld` pattern.
 */
module Email {
  import opened JsText

  /** The outcomes of `validateEmailAdvanced`, one per reason text, in the order they are tested. */
  datatype EmailVerdict =
    | EmailOk
    | EmptyValue        // "Correo vacío."
    | AtCount           // not exactly one @
    | EmptyLocal        // nothing before the @
    | EmptyDomain       // nothing after the @
    | LocalTooLong      // more than 64 code units before the @
    | LocalDotEdge      // the local part starts or ends with a dot
    | LocalDoubleDot    // two dots in a row in the local part
    | LocalNoLetter     // no letter in the local part
    | DomainDoubleDot   // two dots in a row in the domain
    | DomainNoDot       // no dot in the domain
    | BadTld            // the last label is not 2 to 24 ASCII letters
    | BadGeneral        // the general pattern fails

  /** `[A-Za-zÁÉÍÓÚáéíóúÑñ]`. */
  predicate EmailLetter(c: char)
  {
    IsAsciiLetter(c) || IsSpanishAccented(c)
  }

  /** `/\.\./`. */
  predicate HasDoubleDot(s: string)
  {
    exists i :: 0 <= i < |s| - 1 && s[i] == '.' && s[i + 1] == '.'
  }

  /** `/^[A-Za-z]{2,24}$/`. */
  predicate TldOk(t: string)
  {
    2 <= |t| <= 24 && forall i :: 0 <= i < |t| ==> IsAsciiLetter(t[i])
  }

  /** `[^\s@]`. */
  predicate Plain(c: char)
  {
    !IsJsSpace(c) && c != '@'
  }

  /** `/^[^\s@]+@[^\s@]+\.[^\s@]+$/`: an @ at `p`, a dot at `q`, something between and around them, and nothing else is white space or @. */
  predicate GeneralShape(v: string)
  {
    exists p, q :: 0 < p && p + 1 < q < |v| - 1 && v[p] == '@' && v[q] == '.'
      && forall i :: 0 <= i < |v| && i != p ==> Plain(v[i])
  }

  /** validateEmailAdvanced. */
  function ValidateEmail(val: string): EmailVerdict
  {
    if val == [] then EmptyValue
    else if Count(val, '@') != 1 then AtCount
    else
      var parts := Split(val, '@');
      SplitCount(val, '@');
      CheckParts(val, parts[0], parts[1])
  }

  /** The tests after `const [local, domain] = val.split("@")`, in their order. */
  function CheckParts(val: string, local: string, domain: string): EmailVerdict
  {
    if local == [] then EmptyLocal
    else if domain == [] then EmptyDomain
    else if LocalVerdict(local) != EmailOk then LocalVerdict(local)
    else if DomainVerdict(domain) != EmailOk then DomainVerdict(domain)
    else if !GeneralShape(val) then BadGeneral
    else EmailOk
  }

  /** The tests on a non-empty local part. */
  function LocalVerdict(local: string): EmailVerdict
    requires local != []
  {
    if Utf16Length(local) > 64 then LocalTooLong
    else if local[0] == '.' || local[|local| - 1] == '.' then LocalDotEdge
    else if HasDoubleDot(local) then LocalDoubleDot
    else if !(exists i :: 0 <= i < |local| && EmailLetter(local[i])) then LocalNoLetter
    else EmailOk
  }

  /** The tests on a non-empty domain: `domain.split(".")` and its last label. */
  function DomainVerdict(domain: string): EmailVerdict
  {
    if HasDoubleDot(domain) then DomainDoubleDot
    else if |Split(domain, '.')| < 2 then DomainNoDot
    else
      var labels := Split(domain, '.');
      if !TldOk(labels[|labels| - 1]) then BadTld
      else EmailOk
  }

  // ---------------------------------------------------------------------
  // The accepted addresses, stated by positions
  // ---------------------------------------------------------------------

  /** The only @ of `v` is at `p`. */
  predicate OnlyAtAt(v: string, p: int)
  {
    0 <= p < |v| && v[p] == '@' && forall i :: 0 <= i < |v| && i != p ==> v[i] != '@'
  }

  /** The local part: 1 to 64 code units, no dot at either end, no two dots in a row, a letter somewhere. */
  predicate LocalOk(l: string)
  {
    && 1 <= Utf16Length(l) <= 64
    && l[0] != '.' && l[|l| - 1] != '.'
    && !HasDoubleDot(l)
    && exists i :: 0 <= i < |l| && EmailLetter(l[i])
  }

  /** The domain: no two dots in a row, and a dot past its first character followed by 2 to 24 ASCII letters to the end. */
  predicate DomainOk(d: string)
  {
    && !HasDoubleDot(d)
    && exists j :: 1 <= j < |d| && d[j] == '.' && TldOk(d[j + 1..])
  }

  /** The addresses `validateEmailAdvanced` is meant to accept. */
  predicate EmailSpec(v: string)
  {
    && (forall i :: 0 <= i < |v| ==> !IsJsSpace(v[i]))
    && exists p :: 0 <= p < |v| && OnlyAtAt(v, p) && LocalOk(v[..p]) && DomainOk(v[p + 1..])
  }

  // ---------------------------------------------------------------------
  // Lemmas
  // ---------------------------------------------------------------------

  lemma {:induction false} CountConcat(a: string, b: string, c: char)
    ensures Count(a + b, c) == Count(a, c) + Count(b, c)
  {
    if a != [] {
      assert (a + b)[0] == a[0];
      assert (a + b)[1..] == a[1..] + b;
      CountConcat(a[1..], b, c);
    } else {
      assert a + b == b;
    }
  }

  /** One @ exactly when there is a position holding the only @. */
  lemma CountOneAt(v: string, p: int)
    requires 0 <= p < |v| && v[p] == '@'
    ensures Count(v, '@') == 1 <==> OnlyAtAt(v, p)
  {
    assert v == v[..p] + [v[p]] + v[p + 1..];
    CountConcat(v[..p] + [v[p]], v[p + 1..], '@');
    CountConcat(v[..p], [v[p]], '@');
    if Count(v, '@') == 1 {
      forall i | 0 <= i < |v| && i != p ensures v[i] != '@' {
        if i < p {
          assert v[..p][i] == v[i];
        } else {
          assert v[p + 1..][i - p - 1] == v[i];
        }
      }
    } else {
      assert '@' in v[..p] || '@' in v[p + 1..];
    }
  }

  /** With one @ at `p`, `split("@")` yields the part before and the part after it. */
  lemma SplitAtOnlyAt(v: string, p: int)
    requires OnlyAtAt(v, p)
    ensures Split(v, '@') == [v[..p], v[p + 1..]]
  {
    assert '@' in v;
    assert '@' !in v[..p];
    var first := IndexOf(v, '@');
    SplitFirstPiece(v, '@');
    assert first == p;
    var after := v[p + 1..];
    forall k | 0 <= k < |after| ensures after[k] != '@' {
      assert after[k] == v[p + 1 + k];
    }
    SplitWithout(after, '@');
  }

  /** `domain.split(".")` has two pieces or more exactly when there is a dot, and its last piece follows the last dot. */
  lemma DomainLabels(d: string)
    ensures |Split(d, '.')| < 2 <==> '.' !in d
    ensures '.' in d ==> var labels := Split(d, '.');
      labels[|labels| - 1] == d[LastIndexOf(d, '.') + 1..]
  {
    SplitCount(d, '.');
    if '.' in d {
      SplitLastPiece(d, '.');
    }
  }

  /** A dot followed only by letters is the last dot. */
  lemma TldDotIsLast(d: string, j: int)
    requires 0 <= j < |d| && d[j] == '.' && TldOk(d[j + 1..])
    ensures LastIndexOf(d, '.') == j
  {
    var tld := d[j + 1..];
    forall k | 0 <= k < |tld| ensures tld[k] != '.' {
      assert IsAsciiLetter(tld[k]);
    }
    LastIndexUnique(d, '.', j);
  }

  /**
   * Once the @ and the domain's last label pass, the general pattern asks
   * for no white space and a dot past the domain's first character.
   */
  lemma GeneralShapeAt(v: string, p: int)
    requires OnlyAtAt(v, p) && p >= 1
    requires var d := v[p + 1..]; '.' in d && TldOk(d[LastIndexOf(d, '.') + 1..])
    ensures var d := v[p + 1..];
      GeneralShape(v) <==> (forall i :: 0 <= i < |v| ==> !IsJsSpace(v[i])) && LastIndexOf(d, '.') >= 1
  {
    var d := v[p + 1..];
    var l := LastIndexOf(d, '.');
    if GeneralShape(v) {
      var p', q :| 0 < p' && p' + 1 < q < |v| - 1 && v[p'] == '@' && v[q] == '.'
        && forall i :: 0 <= i < |v| && i != p' ==> Plain(v[i]);
      assert p' == p;
      assert d[q - p - 1] == '.';
      assert forall k :: l < k < |d| ==> d[k] != '.' by {
        forall k | l < k < |d| ensures d[k] != '.' {
          assert d[l + 1..][k - l - 1] == d[k];
        }
      }
    }
    if (forall i :: 0 <= i < |v| ==> !IsJsSpace(v[i])) && l >= 1 {
      var q := p + 1 + l;
      assert v[q] == '.';
      assert 0 < p && p + 1 < q < |v| - 1 && v[p] == '@' && v[q] == '.'
        && forall i :: 0 <= i < |v| && i != p ==> Plain(v[i]);
    }
  }

  /** The domain test by positions, in terms of the last dot. */
  lemma DomainOkByLastDot(d: string)
    ensures DomainOk(d) <==>
      !HasDoubleDot(d) && '.' in d && LastIndexOf(d, '.') >= 1 && TldOk(d[LastIndexOf(d, '.') + 1..])
  {
    if DomainOk(d) {
      var j :| 1 <= j < |d| && d[j] == '.' && TldOk(d[j + 1..]);
      TldDotIsLast(d, j);
    }
    if '.' in d && LastIndexOf(d, '.') >= 1 && TldOk(d[LastIndexOf(d, '.') + 1..]) {
      var j := LastIndexOf(d, '.');
      assert 1 <= j < |d| && d[j] == '.' && TldOk(d[j + 1..]);
    }
  }

  /** The local-part tests pass exactly when the local part is as `LocalOk` says. */
  lemma LocalVerdictMeaning(l: string)
    requires l != []
    ensures LocalVerdict(l) == EmailOk <==> LocalOk(l)
  {
  }

  /** The domain tests pass exactly when there is a dot and the label after the last one is a top-level label. */
  lemma DomainVerdictMeaning(d: string)
    ensures DomainVerdict(d) == EmailOk <==>
      !HasDoubleDot(d) && '.' in d && TldOk(d[LastIndexOf(d, '.') + 1..])
  {
    DomainLabels(d);
  }

  /** After the split at the only @, the remaining tests accept exactly what `EmailSpec` describes at that @. */
  lemma CheckPartsMeaning(v: string, p: int)
    requires OnlyAtAt(v, p)
    ensures CheckParts(v, v[..p], v[p + 1..]) == EmailOk <==>
      (forall i :: 0 <= i < |v| ==> !IsJsSpace(v[i])) && LocalOk(v[..p]) && DomainOk(v[p + 1..])
  {
    var l := v[..p];
    var d := v[p + 1..];
    DomainOkByLastDot(d);
    if l != [] {
      LocalVerdictMeaning(l);
      DomainVerdictMeaning(d);
      if '.' in d && TldOk(d[LastIndexOf(d, '.') + 1..]) {
        GeneralShapeAt(v, p);
      }
    }
  }

  /**
   * `validateEmailAdvanced` accepts exactly the addresses with one @, a
   * local part of 1 to 64 code units with no dot at either end, no two dots
   * in a row and a letter, a domain with no two dots in a row and a dot past
   * its first character followed by a 2 to 24 letter top-level label, and
   * no white space anywhere.
   */
  lemma ValidateEmailMeaning(v: string)
    ensures ValidateEmail(v) == EmailOk <==> EmailSpec(v)
  {
    if v != [] && Count(v, '@') == 1 {
      var p := IndexOf(v, '@');
      CountOneAt(v, p);
      ValidateAtOnlyAt(v, p);
      EmailSpecAtOnlyAt(v, p);
      CheckPartsMeaning(v, p);
    } else if EmailSpec(v) {
      var p :| 0 <= p < |v| && OnlyAtAt(v, p) && LocalOk(v[..p]) && DomainOk(v[p + 1..]);
      CountOneAt(v, p);
    }
  }

  /** With one @ at `p`, `validateEmailAdvanced` runs the remaining tests on the parts around it. */
  lemma ValidateAtOnlyAt(v: string, p: int)
    requires OnlyAtAt(v, p)
    ensures ValidateEmail(v) == CheckParts(v, v[..p], v[p + 1..])
  {
    CountOneAt(v, p);
    SplitAtOnlyAt(v, p);
  }

  /** With one @ at `p`, `EmailSpec` speaks of the parts around it. */
  lemma EmailSpecAtOnlyAt(v: string, p: int)
    requires OnlyAtAt(v, p)
    ensures EmailSpec(v) <==>
      (forall i :: 0 <= i < |v| ==> !IsJsSpace(v[i])) && LocalOk(v[..p]) && DomainOk(v[p + 1..])
  {
    if EmailSpec(v) {
      var p' :| 0 <= p' < |v| && OnlyAtAt(v, p') && LocalOk(v[..p']) && DomainOk(v[p' + 1..]);
      assert p' == p;
    }
  }
}
