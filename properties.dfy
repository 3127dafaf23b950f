/** What the parser promises: when it fails, what a successful parse holds,
    how the gmail rule canonicalises a local part, and the documented examples. */
module ParseProperties {
  import opened Unicode
  import opened Strings
  import opened Disposable

  // ---------------------------------------------------------------------
  // toLower

  /** Lower-casing maps ASCII 'A'..'Z' to 'a'..'z', one for one, and leaves
      every other ASCII character as it is. */
  lemma LowerCaseAscii(s: string)
    ensures |LowerCase(s)| == |s|
    ensures forall k :: 0 <= k < |s| && 'A' <= s[k] <= 'Z' ==>
              LowerCase(s)[k] as int == s[k] as int + 0x20
    ensures forall k :: 0 <= k < |s| && s[k] as int < 0x80 && !('A' <= s[k] <= 'Z') ==>
              LowerCase(s)[k] == s[k]
  {
  }

  /** A string of domain characters is already lower case. */
  lemma {:induction false} LowerCaseDomainChars(s: string)
    requires forall k :: 0 <= k < |s| ==> IsDomainChar(s[k])
    ensures LowerCase(s) == s
  {
    if s != [] {
      LowerCaseDomainChars(s[1..]);
    }
  }

  /** Lower-casing commutes with taking out the dots. */
  lemma {:induction false} LowerCaseRemoveDots(s: string)
    ensures LowerCase(RemoveAll(s, '.')) == RemoveAll(LowerCase(s), '.')
  {
    if s != [] {
      LowerCaseRemoveDots(s[1..]);
      assert LowerCase(s)[1..] == LowerCase(s[1..]);
      var head := if s[0] == '.' then [] else [s[0]];
      LowerCaseConcat(head, RemoveAll(s[1..], '.'));
    }
  }

  /** Lower-casing works piece by piece. */
  lemma {:induction false} LowerCaseConcat(a: string, b: string)
    ensures LowerCase(a + b) == LowerCase(a) + LowerCase(b)
  {
    assert |LowerCase(a + b)| == |LowerCase(a) + LowerCase(b)|;
    forall k | 0 <= k < |a + b|
      ensures LowerCase(a + b)[k] == (LowerCase(a) + LowerCase(b))[k]
    {
      if k >= |a| {
        assert (a + b)[k] == b[k - |a|];
      }
    }
  }

  // ---------------------------------------------------------------------
  // ValidateDomain

  /** A valid domain is its own lower case and holds no '@' and no white space. */
  lemma ValidDomainIsLowerCase(d: string)
    requires IsValidDomain(d)
    ensures LowerCase(d) == d
    ensures '@' !in d
    ensures forall k :: 0 <= k < |d| ==> !IsSpace(d[k])
  {
    LowerCaseDomainChars(d);
  }

  /** Examples: "-bad.com", "x.c", "good.com." and a domain with a tab are
      rejected; "good.co" and the dotless "localhost" are accepted. */
  lemma ValidateDomainExamples()
    ensures !IsValidDomain("-bad.com")
    ensures !IsValidDomain("x.c")
    ensures IsValidDomain("good.co")
    ensures IsValidDomain("localhost")
    ensures !IsValidDomain("good.com.")
    ensures !IsValidDomain("b\tc.com")
  {
    assert "x.c"[1] == '.';
    assert "b\tc.com"[1] == '\t';
  }

  // ---------------------------------------------------------------------
  // normalize

  /** Any domain other than gmail.com keeps the local part whole: `preferred`
      is the local part, `extra` is empty, and `normalized` is the local part,
      lower-cased unless it is case-sensitive. */
  lemma NormalizeOtherDomain(localPart: string, domain: string, caseSensitive: bool)
    requires domain != Gmail
    ensures var n := Normalize(localPart, domain, caseSensitive);
            n.preferred == localPart && n.extra == "" &&
            n.normalized == if caseSensitive then localPart else LowerCase(localPart)
  {
  }

  /** The gmail rule on a local part with a '+': everything before the first
      '+' is kept (the preferred form) and loses its dots; everything after it,
      further '+' included, is the suffix. */
  lemma GmailRuleCut(p: string, e: string)
    requires '+' !in p
    ensures GmailRule(p + "+" + e) == (RemoveAll(p, '.'), p, e)
  {
    SplitNAtFirst(p, '+', e);
  }

  /** The gmail rule on a local part without '+': only the dots go. */
  lemma GmailRuleWhole(localPart: string)
    requires '+' !in localPart
    ensures GmailRule(localPart) == (RemoveAll(localPart, '.'), localPart, "")
  {
  }

  /** Lower-casing a string free of '.' and '+' keeps it free of both. */
  lemma LowerCaseKeepsOut(s: string)
    requires '.' !in s && '+' !in s
    ensures '.' !in LowerCase(s) && '+' !in LowerCase(s)
  {
    assert forall k :: 0 <= k < |s| ==> LowerCase(s)[k] != '.' && LowerCase(s)[k] != '+';
  }

  /** For gmail.com, `preferred` is the text before the first '+' and `extra`
      the text after it (itself possibly holding '+'), or the whole local part
      and "" when there is no '+'; `normalized` is `preferred` without its dots,
      lower-cased unless case-sensitive, and so holds neither '.' nor '+'. */
  lemma NormalizeGmail(localPart: string, caseSensitive: bool)
    ensures var n := Normalize(localPart, Gmail, caseSensitive);
            ('+' in localPart ==> '+' !in n.preferred && localPart == n.preferred + "+" + n.extra) &&
            ('+' !in localPart ==> n.preferred == localPart && n.extra == "") &&
            n.normalized == (if caseSensitive then RemoveAll(n.preferred, '.')
                             else LowerCase(RemoveAll(n.preferred, '.'))) &&
            '.' !in n.normalized && '+' !in n.normalized
  {
    var pref: string;
    if '+' in localPart {
      SplitFirst(localPart, '+');
      var parts := SplitN(localPart, '+', 2);
      pref := parts[0];
      GmailRuleCut(parts[0], parts[1]);
    } else {
      pref := localPart;
      GmailRuleWhole(localPart);
    }
    var base := RemoveAll(pref, '.');
    RemoveAllRemoves(pref, '.');
    RemoveAllCount(pref, '.', '+');
    LowerCaseKeepsOut(base);
  }

  /** The local part the gmail rule keeps does not depend on the dots. */
  lemma GmailRuleIgnoresDots(localPart: string)
    ensures GmailRule(localPart).0 == GmailRule(RemoveAll(localPart, '.')).0
  {
    var q := RemoveAll(localPart, '.');
    RemoveAllCount(localPart, '.', '+');
    if '+' in localPart {
      SplitFirst(localPart, '+');
      var parts := SplitN(localPart, '+', 2);
      GmailRuleIgnoresDotsCut(parts[0], parts[1]);
    } else {
      GmailRuleWhole(localPart);
      GmailRuleWhole(q);
      RemoveAllRemoves(localPart, '.');
      RemoveAllAbsent(q, '.');
    }
  }

  /** `GmailRuleIgnoresDots` for a local part that holds a '+'. */
  lemma GmailRuleIgnoresDotsCut(p: string, e: string)
    requires '+' !in p
    ensures GmailRule(p + "+" + e).0 == GmailRule(RemoveAll(p + "+" + e, '.')).0
  {
    var rp, re := RemoveAll(p, '.'), RemoveAll(e, '.');
    GmailRuleCut(p, e);
    RemoveAllAround(p, '+', e, '.');
    RemoveAllCount(p, '.', '+');
    GmailRuleCut(rp, re);
    RemoveAllRemoves(p, '.');
    RemoveAllAbsent(rp, '.');
  }

  /** Two gmail local parts that differ only in where their dots stand have
      the same normalized form: `john.smith` and `johnsmith` are one address. */
  lemma GmailIgnoresDots(localPart: string, caseSensitive: bool)
    ensures Normalize(localPart, Gmail, caseSensitive).normalized ==
            Normalize(RemoveAll(localPart, '.'), Gmail, caseSensitive).normalized
  {
    GmailRuleIgnoresDots(localPart);
  }

  /** Two gmail local parts that differ only in case have the same
      case-insensitive normalized form: `JohnSmith` and `johnsmith` are one
      address. */
  lemma GmailIgnoresCase(s1: string, s2: string)
    requires LowerCase(s1) == LowerCase(s2)
    ensures Normalize(s1, Gmail, false).normalized == Normalize(s2, Gmail, false).normalized
  {
    NormalizeGmail(s1, false);
    NormalizeGmail(s2, false);
    var p1, p2 := GmailRule(s1).1, GmailRule(s2).1;
    LowerCaseRemoveDots(p1);
    LowerCaseRemoveDots(p2);
    GmailRuleLower(s1);
    GmailRuleLower(s2);
  }

  /** The preferred form the gmail rule keeps commutes with lower-casing:
      lower-casing never creates or removes a '+'. */
  lemma GmailRuleLower(s: string)
    ensures GmailRule(LowerCase(s)).1 == LowerCase(GmailRule(s).1)
  {
    var l := LowerCase(s);
    if '+' in s {
      SplitFirst(s, '+');
      var parts := SplitN(s, '+', 2);
      var p, e := parts[0], parts[1];
      GmailRuleCut(p, e);
      LowerCaseConcat(p + "+", e);
      LowerCaseConcat(p, "+");
      assert LowerCase("+") == "+";
      LowerCaseKeepsPlusOut(p);
      GmailRuleCut(LowerCase(p), LowerCase(e));
    } else {
      LowerCaseKeepsPlusOut(s);
      GmailRuleWhole(s);
      GmailRuleWhole(l);
    }
  }

  /** Lower-casing a string free of '+' keeps it free of '+'. */
  lemma LowerCaseKeepsPlusOut(s: string)
    requires '+' !in s
    ensures '+' !in LowerCase(s)
  {
    assert forall k :: 0 <= k < |s| ==> LowerCase(s)[k] != '+';
  }

  /** `adam+junk` at gmail.com is `adam`, with `junk` as the extra part. */
  lemma NormalizeSuffixExample()
    ensures Normalize("adam+junk", Gmail, false) == Normalization("adam", "adam", "junk")
  {
    assert "adam+junk" == "adam" + "+" + "junk";
    GmailRuleCut("adam", "junk");
    RemoveAllAbsent("adam", '.');
    LowerCaseDomainChars("adam");
  }

  /** Only the first '+' cuts: `a+b+c` keeps `b+c` as the extra part. */
  lemma NormalizeFirstPlusExample()
    ensures Normalize("a+b+c", Gmail, false) == Normalization("a", "a", "b+c")
  {
    assert "a+b+c" == "a" + "+" + "b+c";
    GmailRuleCut("a", "b+c");
    RemoveAllAbsent("a", '.');
    LowerCaseDomainChars("a");
  }

  /** `ab` and `Ab` at gmail.com both normalize to `ab`. */
  lemma NormalizeCaseExample()
    ensures Normalize("ab", Gmail, false).normalized == "ab"
    ensures Normalize("Ab", Gmail, false).normalized == "ab"
  {
    GmailRuleWhole("ab");
    GmailRuleWhole("Ab");
    RemoveAllAbsent("ab", '.');
    RemoveAllAbsent("Ab", '.');
  }

  /** So does `a.b`: at gmail.com the dots do not count. */
  lemma NormalizeDotsExample()
    ensures Normalize("a.b", Gmail, false) == Normalization("ab", "a.b", "")
  {
    assert "a.b" == "a" + "." + "b";
    RemoveAllOne("a", '.', "b");
    GmailRuleWhole("a.b");
  }

  /** Case-sensitively, `A.b` at gmail.com loses its dot but keeps its case. */
  lemma NormalizeCaseSensitiveExample()
    ensures Normalize("A.b", Gmail, true) == Normalization("Ab", "A.b", "")
  {
    assert "A.b" == "A" + "." + "b";
    RemoveAllOne("A", '.', "b");
    GmailRuleWhole("A.b");
  }

  /** Other domains keep dots and '+', and `preferred` keeps the case. */
  lemma NormalizeOtherDomainExample()
    ensures Normalize("A.b+c", "x.co", false) == Normalization("a.b+c", "A.b+c", "")
  {
  }

  // ---------------------------------------------------------------------
  // ParseEmail

  /** `ParseEmail` fails exactly when the trimmed input is empty, holds a
      space, does not hold exactly one '@', or has an invalid domain once the
      text after the '@' is lower-cased. */
  lemma ParseEmailFailsIff(email: string, caseSensitive: bool, disposableList: set<string>)
    ensures var t := TrimSpace(email);
            ParseEmail(email, caseSensitive, disposableList).err.Some? <==>
              (t == [] || ' ' in t || Count(t, '@') != 1 ||
               !IsValidDomain(LowerCase(t[Index(t, '@') + 1..])))
  {
    var t := TrimSpace(email);
    SplitCount(t, '@');
    if Count(t, '@') == 1 {
      SplitOnce(t, '@');
    }
  }

  /** A successful parse cuts the trimmed input at its one '@':
      `email == localPart + "@" + raw` with `domain == LowerCase(raw)`; the
      domain is valid and lower case, neither part holds '@', and the local
      part's three forms are those `Normalize` gives for it. */
  lemma ParseEmailSucceeds(email: string, caseSensitive: bool, disposableList: set<string>)
    requires ParseEmail(email, caseSensitive, disposableList).err.None?
    ensures var p := ParseEmail(email, caseSensitive, disposableList).parsed;
            |p.localPart| < |p.email| &&
            p.email == p.localPart + "@" + p.email[|p.localPart| + 1..] &&
            p.domain == LowerCase(p.email[|p.localPart| + 1..]) &&
            IsValidDomain(p.domain) && LowerCase(p.domain) == p.domain &&
            '@' !in p.localPart && '@' !in p.domain && ' ' !in p.email &&
            Normalization(p.normalized, p.preferred, p.extra) ==
              Normalize(p.localPart, p.domain, caseSensitive)
  {
    var p := ParseEmail(email, caseSensitive, disposableList).parsed;
    var splits := Split(p.email, '@');
    JoinSplit(p.email, '@');
    assert splits[1..] == [splits[1]];
    assert p.email == splits[0] + "@" + splits[1];
    assert p.email[|p.localPart| + 1..] == splits[1];
    ValidDomainIsLowerCase(p.domain);
  }

  /** Composing an address from a local part and a raw domain and parsing it
      gives both back, the domain lower-cased, whenever the address has no
      surrounding white space, no space, one '@' and a valid domain. */
  lemma ParseEmailComposed(localPart: string, rawDomain: string, caseSensitive: bool, disposableList: set<string>)
    requires '@' !in localPart && '@' !in rawDomain && ' ' !in localPart && ' ' !in rawDomain
    requires localPart == [] || !IsSpace(localPart[0])
    requires IsValidDomain(LowerCase(rawDomain))
    ensures var r := ParseEmail(localPart + "@" + rawDomain, caseSensitive, disposableList);
            r.err.None? && r.parsed.email == localPart + "@" + rawDomain &&
            r.parsed.localPart == localPart && r.parsed.domain == LowerCase(rawDomain) &&
            (r.parsed.disposable <==> LowerCase(rawDomain) in disposableList) &&
            Normalization(r.parsed.normalized, r.parsed.preferred, r.parsed.extra) ==
              Normalize(localPart, LowerCase(rawDomain), caseSensitive)
  {
    var e := localPart + "@" + rawDomain;
    SplitAtOne(localPart, rawDomain, '@');
    ComposedIsTrimmed(localPart, rawDomain);
    assert ' ' !in e by {
      assert e == localPart + ['@'] + rawDomain;
    }
    var r := ParseEmail(e, caseSensitive, disposableList);
    assert r.parsed.localPart == localPart && r.parsed.domain == LowerCase(rawDomain);
  }

  /** A composed address that starts with a non-space and ends in a valid
      domain has nothing to trim. */
  lemma ComposedIsTrimmed(localPart: string, rawDomain: string)
    requires localPart == [] || !IsSpace(localPart[0])
    requires IsValidDomain(LowerCase(rawDomain))
    ensures TrimSpace(localPart + "@" + rawDomain) == localPart + "@" + rawDomain
  {
    var e := localPart + "@" + rawDomain;
    var d := LowerCase(rawDomain);
    assert !IsSpace(e[|e| - 1]) by {
      assert e[|e| - 1] == rawDomain[|rawDomain| - 1];
      assert d[|d| - 1] == ToLowerRune(rawDomain[|rawDomain| - 1]);
      assert IsDomainChar(d[|d| - 1]);
    }
    assert [] + e + [] == e;
    TrimSpaceUnique([], e, []);
  }

  /** Which blocklist is supplied changes only the `disposable` flag. */
  lemma ParseEmailIgnoresBlocklist(email: string, caseSensitive: bool, list1: set<string>, list2: set<string>)
    ensures var r1, r2 := ParseEmail(email, caseSensitive, list1), ParseEmail(email, caseSensitive, list2);
            r1.err == r2.err && r1.parsed.(disposable := false) == r2.parsed.(disposable := false)
  {
  }

  /** The empty string fails, with the zero record. */
  lemma ParseEmptyExample(disposableList: set<string>)
    ensures ParseEmail("", false, disposableList) == ParseResult(Zero, Some(ErrInvalidEmail))
  {
  }

  /** An address with a space fails, the trimmed input kept in `email`. */
  lemma ParseSpaceExample(disposableList: set<string>)
    ensures ParseEmail("a b@x.com", false, disposableList) ==
            ParseResult(Zero.(email := "a b@x.com"), Some(ErrInvalidEmail))
  {
    var email := "a b@x.com";
    assert email[1] == ' ';
    assert [] + email + [] == email;
    TrimSpaceUnique([], email, []);
  }

  /** The gmail rule applies after the domain is lower-cased: at any spelling
      of gmail.com (`GMAIL.com`, `Gmail.Com`, ...) a local part parses as it
      would at gmail.com itself. */
  lemma ParseAnyCaseGmail(localPart: string, rawDomain: string, caseSensitive: bool, disposableList: set<string>)
    requires '@' !in localPart && ' ' !in localPart
    requires localPart == [] || !IsSpace(localPart[0])
    requires LowerCase(rawDomain) == Gmail
    ensures var r := ParseEmail(localPart + "@" + rawDomain, caseSensitive, disposableList);
            r.err.None? && r.parsed.domain == Gmail &&
            Normalization(r.parsed.normalized, r.parsed.preferred, r.parsed.extra) ==
              Normalize(localPart, Gmail, caseSensitive)
  {
    GmailIsValid();
    ValidDomainIsLowerCase(Gmail);
    forall k | 0 <= k < |rawDomain|
      ensures rawDomain[k] != '@' && rawDomain[k] != ' '
    {
      assert Gmail[k] == ToLowerRune(rawDomain[k]);
    }
    ParseEmailComposed(localPart, rawDomain, caseSensitive, disposableList);
  }

  /** The gmail.com domain passes validation. */
  lemma GmailIsValid()
    ensures IsValidDomain(Gmail)
  {
  }

  /** An input with no '@', or with more than one, is rejected. */
  lemma ParseEmailNeedsOneAt(email: string, caseSensitive: bool, disposableList: set<string>)
    requires Count(email, '@') != 1
    ensures ParseEmail(email, caseSensitive, disposableList).err.Some?
  {
    TrimSpaceCount(email, '@');
    ParseEmailFailsIff(email, caseSensitive, disposableList);
  }

  /** Whatever blocklist is in force decides the flag: `a@t.io` is disposable
      exactly when the list holds `t.io`, so replacing the list re-flags it. */
  lemma BlocklistExample(disposableList: set<string>)
    ensures ParseEmail("a@t.io", false, disposableList).parsed.disposable <==> "t.io" in disposableList
  {
    assert "a@t.io" == "a" + "@" + "t.io";
    LowerCaseDomainChars("t.io");
    ParseEmailComposed("a", "t.io", false, disposableList);
  }

  /** The local part may be empty. */
  lemma ParseEmptyLocalExample(disposableList: set<string>)
    ensures ParseEmail("@x", false, disposableList).err.None?
  {
    assert "@x" == "" + "@" + "x";
    ParseEmailComposed("", "x", false, disposableList);
  }

  /** A dotless domain is accepted. */
  lemma ParseDotlessExample(disposableList: set<string>)
    ensures ParseEmail("a@x", false, disposableList).err.None?
  {
    assert "a@x" == "a" + "@" + "x";
    ParseEmailComposed("a", "x", false, disposableList);
  }

  /** Only a literal space is refused inside the address: a tab inside the
      local part is accepted. */
  lemma ParseTabExample(disposableList: set<string>)
    ensures ParseEmail("a\tb@x", false, disposableList).err.None?
  {
    assert "a\tb@x" == "a\tb" + "@" + "x";
    ParseEmailComposed("a\tb", "x", false, disposableList);
  }

  /** Surrounding white space is trimmed before anything else. */
  lemma ParseTrimExample(disposableList: set<string>)
    ensures ParseEmail("  a@x.com\n", false, disposableList).parsed.email == "a@x.com"
  {
    assert "  a@x.com\n" == "  " + "a@x.com" + "\n";
    TrimSpaceUnique("  ", "a@x.com", "\n");
  }
}
