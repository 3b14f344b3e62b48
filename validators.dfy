/** The two e-mail checks and the phone check, stated as character-class predicates
    instead of regular expressions. */
module Validators {
  import opened Chars

  /** First index of `c` in `s`, if any. */
  function IndexOf(s: string, c: char): (r: Option<nat>)
    ensures r.None? <==> c !in s
    ensures r.Some? ==> r.value < |s| && s[r.value] == c && c !in s[..r.value]
  {
    if s == [] then None
    else if s[0] == c then Some(0)
    else match IndexOf(s[1..], c)
      case None => None
      case Some(k) => assert s[..k + 1] == [s[0]] + s[1..][..k]; Some(k + 1)
  }

  /** Last index of `c` in `s`, if any. */
  function LastIndexOf(s: string, c: char): (r: Option<nat>)
    ensures r.None? <==> c !in s
    ensures r.Some? ==> r.value < |s| && s[r.value] == c && c !in s[r.value + 1..]
  {
    if s == [] then None
    else if s[|s| - 1] == c then Some(|s| - 1)
    else
      var k := LastIndexOf(s[..|s| - 1], c);
      if k.Some? then assert s[k.value + 1..] == s[..|s| - 1][k.value + 1..] + [s[|s| - 1]]; k
      else assert s == s[..|s| - 1] + [s[|s| - 1]]; k
  }

  // ---------------------------------------------------------------------------
  // Utils.isValidEmail: /^[^\s@]+@[^\s@]+\.[^\s@]+$/

  predicate Plain(c: char) { !IsJsSpace(c) && c != '@' }

  predicate AllPlain(s: string) { forall i :: 0 <= i < |s| ==> Plain(s[i]) }

  /** The language of the pattern: a run of plain characters, `@`, a run of plain characters,
      a dot, a run of plain characters; `@` at index `k`, the dot at index `d`. */
  ghost predicate LooseEmailAt(s: string, k: int, d: int)
  {
    0 < k && k + 1 < d && d + 1 < |s| && s[k] == '@' && s[d] == '.'
    && AllPlain(s[..k]) && AllPlain(s[k + 1..])
  }

  ghost predicate LooseEmailShape(s: string)
  {
    exists k, d :: LooseEmailAt(s, k, d)
  }

  /** `Utils.isValidEmail`, computed by locating the `@` and looking for an inner dot after it. */
  predicate IsValidEmailLoose(s: string)
  {
    match IndexOf(s, '@')
    case None => false
    case Some(k) =>
      var domain := s[k + 1..];
      0 < k && AllPlain(s[..k]) && AllPlain(domain) && |domain| >= 3 && '.' in domain[1..|domain| - 1]
  }

  /** Accepted exactly when there is no white space, one `@` with something before it, and
      after it a dot that is neither the first nor the last character. */
  lemma {:induction false} LooseEmailCorrect(s: string)
    ensures IsValidEmailLoose(s) <==> LooseEmailShape(s)
  {
    if IsValidEmailLoose(s) {
      LooseEmailSound(s);
    }
    if LooseEmailShape(s) {
      var k, d :| LooseEmailAt(s, k, d);
      LooseEmailComplete(s, k, d);
    }
  }

  lemma LooseEmailSound(s: string)
    requires IsValidEmailLoose(s)
    ensures LooseEmailShape(s)
  {
    var k := IndexOf(s, '@').value;
    var domain := s[k + 1..];
    var j :| 0 <= j < |domain| - 2 && domain[1..|domain| - 1][j] == '.';
    assert LooseEmailAt(s, k, k + 2 + j);
  }

  lemma LooseEmailComplete(s: string, k: int, d: int)
    requires LooseEmailAt(s, k, d)
    ensures IsValidEmailLoose(s)
  {
    assert IndexOf(s, '@') == Some(k) by {
      assert '@' !in s[..k] by { assert forall i :: 0 <= i < k ==> s[..k][i] != '@'; }
      assert s[..k + 1] == s[..k] + [s[k]];
    }
    var domain := s[k + 1..];
    assert domain[1..|domain| - 1][d - k - 2] == '.';
  }

  /** Exactly one `@`: an accepted address has no `@` before or after the separator. */
  lemma LooseEmailOneAt(s: string, k: int, d: int)
    requires LooseEmailAt(s, k, d)
    ensures forall i :: 0 <= i < |s| && s[i] == '@' ==> i == k
  {
    forall i | 0 <= i < |s| && i != k ensures s[i] != '@' {
      if i < k { assert s[..k][i] == s[i]; } else { assert s[k + 1..][i - k - 1] == s[i]; }
    }
  }

  // ---------------------------------------------------------------------------
  // Utils.isValidPhone: white space removed, then /^[\+]?[1-9][\d]{0,15}$/

  /** `phone.replace(/\s/g, '')`. */
  function StripSpaces(s: string): (t: string)
    ensures |t| <= |s|
    ensures forall i :: 0 <= i < |t| ==> !IsJsSpace(t[i])
    ensures (forall i :: 0 <= i < |s| ==> !IsJsSpace(s[i])) ==> t == s
  {
    if s == [] then []
    else if IsJsSpace(s[0]) then StripSpaces(s[1..])
    else [s[0]] + StripSpaces(s[1..])
  }

  /** Removing white space distributes over concatenation. */
  lemma {:induction false} StripSpacesAppend(a: string, b: string)
    ensures StripSpaces(a + b) == StripSpaces(a) + StripSpaces(b)
  {
    if a != [] {
      assert (a + b)[0] == a[0] && (a + b)[1..] == a[1..] + b;
      StripSpacesAppend(a[1..], b);
      if !IsJsSpace(a[0]) {
        assert StripSpaces(a + b) == [a[0]] + (StripSpaces(a[1..]) + StripSpaces(b));
      }
    } else {
      assert a + b == b;
    }
  }

  /** One digit 1-9 and then at most fifteen further digits. */
  predicate PhoneDigits(d: string)
  {
    1 <= |d| <= 16 && '1' <= d[0] <= '9' && AllDigits(d)
  }

  /** The language of the phone pattern, as an explicit choice of sign. */
  predicate PhoneShape(t: string)
  {
    PhoneDigits(t) || (|t| > 0 && t[0] == '+' && PhoneDigits(t[1..]))
  }

  /** `Utils.isValidPhone`: strips white space, consumes an optional `+`, checks the digits. */
  predicate IsValidPhone(s: string)
  {
    var t := StripSpaces(s);
    var digits := if |t| > 0 && t[0] == '+' then t[1..] else t;
    0 < |digits| <= 16 && '1' <= digits[0] <= '9' && AllDigits(digits[1..])
  }

  lemma {:induction false} PhoneCorrect(s: string)
    ensures IsValidPhone(s) <==> PhoneShape(StripSpaces(s))
  {
    var t := StripSpaces(s);
    var digits := if |t| > 0 && t[0] == '+' then t[1..] else t;
    if IsValidPhone(s) {
      assert PhoneDigits(digits) by {
        forall i | 0 <= i < |digits| ensures IsDigit(digits[i]) {
          if i > 0 { assert digits[1..][i - 1] == digits[i]; }
        }
      }
    }
    if PhoneShape(t) {
      if |t| > 0 && t[0] == '+' {
        assert !PhoneDigits(t);
      }
      assert PhoneDigits(digits);
      assert forall i :: 0 <= i < |digits| - 1 ==> digits[1..][i] == digits[i + 1];
    }
  }

  // ---------------------------------------------------------------------------
  // isValidEmail of the contact form: /^[a-zA-Z0-9._%+-]+@[a-zA-Z0-9.-]+\.[a-zA-Z]{2,}$/

  predicate LocalChar(c: char)
  {
    IsAsciiLetter(c) || IsDigit(c) || c == '.' || c == '_' || c == '%' || c == '+' || c == '-'
  }

  predicate DomainChar(c: char) { IsAsciiLetter(c) || IsDigit(c) || c == '.' || c == '-' }

  predicate AllLocal(s: string) { forall i :: 0 <= i < |s| ==> LocalChar(s[i]) }

  predicate AllDomain(s: string) { forall i :: 0 <= i < |s| ==> DomainChar(s[i]) }

  predicate AllLetters(s: string) { forall i :: 0 <= i < |s| ==> IsAsciiLetter(s[i]) }

  /** The language of the pattern with `@` at index `k` and the final dot at index `m`:
      local part `s[..k]`, domain `s[k+1..m]`, top-level label `s[m+1..]`. */
  ghost predicate StrictEmailAt(s: string, k: int, m: int)
  {
    0 < k && k + 1 < m && m + 2 < |s| && s[k] == '@' && s[m] == '.'
    && AllLocal(s[..k]) && AllDomain(s[k + 1..m]) && AllLetters(s[m + 1..])
  }

  ghost predicate StrictEmailShape(s: string)
  {
    exists k, m :: StrictEmailAt(s, k, m)
  }

  /** `isValidEmail` of the contact form, computed from the first `@` and the last dot. */
  predicate IsValidEmailStrict(s: string)
  {
    match (IndexOf(s, '@'), LastIndexOf(s, '.'))
    case (Some(k), Some(m)) =>
      0 < k && k + 1 < m && m + 2 < |s|
      && AllLocal(s[..k]) && AllDomain(s[k + 1..m]) && AllLetters(s[m + 1..])
    case _ => false
  }

  /** With the `@` at `k` and the final dot at `m` as the pattern places them, the first `@`
      is at `k` and the last dot at `m`. */
  lemma StrictEmailIndices(s: string, k: int, m: int)
    requires StrictEmailAt(s, k, m)
    ensures IndexOf(s, '@') == Some(k) && LastIndexOf(s, '.') == Some(m)
  {
    assert '@' !in s[..k] by { assert forall i :: 0 <= i < k ==> LocalChar(s[..k][i]); }
    assert s[..k + 1] == s[..k] + [s[k]];
    assert '.' !in s[m + 1..] by {
      var tail := s[m + 1..];
      assert forall i :: 0 <= i < |tail| ==> IsAsciiLetter(tail[i]);
    }
  }

  /** Accepted exactly when the string is a local part over `[A-Za-z0-9._%+-]`, `@`, a domain
      over `[A-Za-z0-9.-]`, a dot, and two or more ASCII letters. */
  lemma {:induction false} StrictEmailCorrect(s: string)
    ensures IsValidEmailStrict(s) <==> StrictEmailShape(s)
  {
    if IsValidEmailStrict(s) {
      var k, m := IndexOf(s, '@').value, LastIndexOf(s, '.').value;
      assert StrictEmailAt(s, k, m);
    }
    if StrictEmailShape(s) {
      var k, m :| StrictEmailAt(s, k, m);
      StrictEmailIndices(s, k, m);
    }
  }

  /** The strict pattern's split is also a split of the loose pattern. */
  lemma StrictAtIsLooseAt(s: string, k: int, m: int)
    requires StrictEmailAt(s, k, m)
    ensures LooseEmailAt(s, k, m)
  {
    assert forall i :: 0 <= i < k ==> s[..k][i] == s[i];
    assert forall i :: k < i < m ==> s[k + 1..m][i - k - 1] == s[i];
    assert forall i :: m < i < |s| ==> s[m + 1..][i - m - 1] == s[i];
    assert forall i :: k < i < |s| ==> s[k + 1..][i - k - 1] == s[i];
  }

  /** The contact form's check is stricter than the utility one: it accepts fewer addresses. */
  lemma StrictImpliesLoose(s: string)
    requires IsValidEmailStrict(s)
    ensures IsValidEmailLoose(s)
  {
    var k, m := IndexOf(s, '@').value, LastIndexOf(s, '.').value;
    assert StrictEmailAt(s, k, m);
    StrictAtIsLooseAt(s, k, m);
    LooseEmailCorrect(s);
  }
}
