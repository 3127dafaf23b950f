/** The email parser of the `disposable` package: it trims and splits an
    address, validates and lower-cases the domain, canonicalises the local
    part by a per-provider rule and flags domains found in a blocklist. */
module Disposable {
  import opened Unicode
  import opened Strings

  datatype Option<T> = None | Some(value: T)

  /** The one error `ParseEmail` reports (`ErrInvalidEmail`). */
  datatype Error = ErrInvalidEmail

  /** A parsed address `<local-part>@<domain>`. */
  datatype ParsedEmail = ParsedEmail(
    email: string,       // the input with surrounding white space trimmed
    preferred: string,   // the local part as the user seems to prefer it
    normalized: string,  // the local part in the form compared for uniqueness
    extra: string,       // domain-specific information cut from the local part
    disposable: bool,    // the domain is a disposable-email service
    domain: string,      // the part after '@', lower-cased
    localPart: string)   // the part before '@'

  /** The zero value `ParsedEmail{}`. */
  const Zero := ParsedEmail("", "", "", "", false, "", "")

  /** Go's `(ParsedEmail, error)` pair: the record is returned on failure too. */
  datatype ParseResult = ParseResult(parsed: ParsedEmail, err: Option<Error>)

  /** The domain whose local parts get the provider rule of `Normalize`. */
  const Gmail := "gmail.com"

  // ---------------------------------------------------------------------
  // toLower

  /** The string `toLower` builds: each rune lower-cased, in order. */
  function LowerCase(s: string): (r: string)
    ensures |r| == |s|
    ensures forall k :: 0 <= k < |s| ==> r[k] == ToLowerRune(s[k])
  {
    if s == [] then [] else [ToLowerRune(s[0])] + LowerCase(s[1..])
  }

  /** `toLower`: appends the lower case of one rune per iteration. */
  method ToLower(s: string) returns (ret: string)
    ensures ret == LowerCase(s)
  {
    ret := "";
    for i := 0 to |s|
      invariant |ret| == i
      invariant forall k :: 0 <= k < i ==> ret[k] == ToLowerRune(s[k])
    {
      ret := ret + [ToLowerRune(s[i])];
    }
  }

  // ---------------------------------------------------------------------
  // ValidateDomain

  /** The characters a domain may hold: `[a-z0-9._-]`. */
  predicate IsDomainChar(c: char) {
    'a' <= c <= 'z' || '0' <= c <= '9' || c == '.' || c == '-' || c == '_'
  }

  /** A structurally valid domain: non-empty, neither starting nor ending with
      '.' or '-', made of `[a-z0-9._-]` only, and, when it has a dot, with at
      least two characters after the last one (every '.' is followed by two
      or more characters). */
  predicate IsValidDomain(d: string) {
    |d| > 0 &&
    d[0] != '.' && d[0] != '-' && d[|d| - 1] != '.' && d[|d| - 1] != '-' &&
    (forall k :: 0 <= k < |d| ==> IsDomainChar(d[k])) &&
    (forall k :: 0 <= k < |d| && d[k] == '.' ==> k + 2 < |d|)
  }

  /** The final-label check of `ValidateDomain`, as the code states it with
      `strings.Split`, agrees with the dot condition of `IsValidDomain`. */
  lemma FinalLabelCheck(d: string)
    ensures var splits := Split(d, '.');
            (|splits| > 1 && |splits[|splits| - 1]| < 2) <==>
            !(forall k :: 0 <= k < |d| && d[k] == '.' ==> k + 2 < |d|)
  {
    var splits := Split(d, '.');
    SplitCount(d, '.');
    if |splits| > 1 {
      JoinSplit(d, '.');
      JoinLast(splits, '.');
      LastLabel(Join(splits[..|splits| - 1], '.'), splits[|splits| - 1]);
    }
  }

  /** In `front + "." + last` with no dot in `last`, some dot has fewer than
      two characters after it exactly when `last` is shorter than two. */
  lemma LastLabel(front: string, last: string)
    requires '.' !in last
    ensures var d := front + ['.'] + last;
            |last| < 2 <==> !(forall k :: 0 <= k < |d| && d[k] == '.' ==> k + 2 < |d|)
  {
    var d := front + ['.'] + last;
    assert d[|front|] == '.';
    forall k | |front| < k < |d|
      ensures d[k] != '.'
    {
      assert d[k] == last[k - |front| - 1];
    }
  }

  /** `ValidateDomain`: the prefix and suffix checks, then a scan that returns
      early on the first character outside `[a-z0-9._-]`, then the length of
      the label after the last dot. */
  method ValidateDomain(domain: string) returns (ok: bool)
    ensures ok == IsValidDomain(domain)
  {
    if domain == "" {
      return false;
    }
    if domain[0] == '.' || domain[0] == '-' || domain[|domain| - 1] == '.' || domain[|domain| - 1] == '-' {
      return false;
    }
    for i := 0 to |domain|
      invariant forall k :: 0 <= k < i ==> IsDomainChar(domain[k])
    {
      match domain[i]
      case '0' | '1' | '2' | '3' | '4' | '5' | '6' | '7' | '8' | '9' =>
      case '-' | '.' | '_' =>
      case ' ' =>
        return false;
      case r =>
        if IsSpace(r) {
          return false;
        } else if 'a' <= r <= 'z' {
        } else {
          return false;
        }
    }
    var splits := Split(domain, '.');
    FinalLabelCheck(domain);
    if |splits| > 1 && |splits[|splits| - 1]| < 2 {
      return false;
    }
    return true;
  }

  // ---------------------------------------------------------------------
  // normalize

  /** The three results of `normalize`: `(ret, pref, sufx)`. */
  datatype Normalization = Normalization(normalized: string, preferred: string, extra: string)

  /** The gmail.com branch of `normalize`: `strings.SplitN(localPart, "+", 2)`;
      with two pieces the first becomes the local part and the preferred form
      and the second the suffix; then every '.' is removed from the local part.
      Returns `(localPart, pref, sufx)`. */
  function GmailRule(localPart: string): (string, string, string) {
    var splits := SplitN(localPart, '+', 2);
    var (lp, pref, sufx) :=
      if |splits| == 2 then (splits[0], splits[0], splits[1]) else (localPart, localPart, "");
    (RemoveAll(lp, '.'), pref, sufx)
  }

  /** `normalize`: the provider rule for `gmail.com` (no rule for any other
      domain), then the local part lower-cased unless it is case-sensitive.
      `preferred` keeps the dots and the case. */
  function Normalize(localPart: string, domain: string, caseSensitive: bool): Normalization {
    var (base, pref, sufx) := if domain == Gmail then GmailRule(localPart) else (localPart, localPart, "");
    Normalization(if caseSensitive then base else LowerCase(base), pref, sufx)
  }

  // ---------------------------------------------------------------------
  // ParseEmail

  /** `ParseEmail(email, caseSensitive)` against the blocklist `disposableList`. */
  function ParseEmail(email: string, caseSensitive: bool, disposableList: set<string>): (r: ParseResult)
    ensures r.parsed.email == TrimSpace(email)
    ensures r.err.Some? ==> r.parsed == Zero.(email := TrimSpace(email))
    ensures r.err.None? ==> IsValidDomain(r.parsed.domain) && '@' !in r.parsed.localPart
    ensures r.err.None? ==> (r.parsed.disposable <==> r.parsed.domain in disposableList)
  {
    var trimmed := TrimSpace(email);
    if trimmed == "" then
      ParseResult(Zero, Some(ErrInvalidEmail))
    else if ' ' in trimmed then
      ParseResult(Zero.(email := trimmed), Some(ErrInvalidEmail))
    else
      var splits := Split(trimmed, '@');
      if |splits| != 2 then
        ParseResult(Zero.(email := trimmed), Some(ErrInvalidEmail))
      else
        var domain := LowerCase(splits[1]);
        var localPart := splits[0];
        if !IsValidDomain(domain) then
          ParseResult(Zero.(email := trimmed), Some(ErrInvalidEmail))
        else
          var n := Normalize(localPart, domain, caseSensitive);
          var p := ParsedEmail(trimmed, n.preferred, n.normalized, n.extra,
                               domain in disposableList, domain, localPart);
          ParseResult(p, None)
  }
}
