# anti-disposable-email: the email parser, in Dafny

This project models the parsing and normalisation core of the Go package
`disposable` (`disposable.go`) and proves properties of it. The core has four parts:

- `ParseEmail` trims an address and refuses it if it is empty or holds a space.
  It splits the address at `@` and requires exactly two pieces. It lower-cases
  the domain and validates it. It then normalises the local part and flags the
  domain if the blocklist holds it.
- `normalize` applies the provider rule for `gmail.com`: everything after the
  first `+` becomes `Extra`, and every `.` is removed. It then lower-cases the
  result unless the caller asked for case sensitivity.
- `toLower` lower-cases one rune at a time.
- `ValidateDomain` is a structural check:
  - the domain is non-empty;
  - it neither starts nor ends with `.` or `-`;
  - every character is in `[a-z0-9._-]`;
  - if it holds a dot, the last label has at least two characters.

Files:

- `unicode.dfy` models the two per-rune functions of Go's `unicode` package
  that the parser uses.
- `strings.dfy` models the functions of Go's `strings` package that the parser
  calls, for a one-character separator:
  - `Split` and `SplitN`;
  - `ReplaceAll(s, c, "")` as `RemoveAll`;
  - `TrimSpace`.

  `Contains`, `HasPrefix` and `HasSuffix` are written directly in Dafny, as
  sequence membership and the first and last element. The parser does not call
  `Count` or `Index`; they are specification helpers.
  - `Count` says how many pieces a split yields.
  - `Index` is the search for the next separator that both splits perform.

  `Join` is the inverse of `Split`, proved in both directions. It is also the
  inverse of the two-piece `SplitN`, which is the only `SplitN` the parser uses.
- `disposable.dfy` models the package itself:
  - the `ParsedEmail` record and `ErrInvalidEmail`;
  - `toLower`, a loop method proved against the function `LowerCase`;
  - `ValidateDomain`, a loop method with an early return, proved against the
    predicate `IsValidDomain`;
  - `normalize` and `ParseEmail`, as functions.
- `properties.dfy` holds what the parser promises:
  - when a parse fails;
  - what a successful parse holds;
  - how the gmail rule canonicalises a local part;
  - the documented examples.

`ParseEmail` returns a `ParseResult(parsed, err)`, which keeps Go's
`(ParsedEmail, error)` pair: on failure, the record still carries the trimmed
input in `email`. The package-global `DisposableList` is a `set<string>`
parameter. The variadic `caseSensitive ...bool` is a `bool`; passing none is
`false`.

Some behaviour of the code is worth stating outright:

- Only a literal `' '` inside the trimmed address is refused (disposable.go:74).
  A tab inside the local part is accepted (`ParseTabExample`). A tab in the
  domain is refused only by `ValidateDomain`.
- Lower-casing is `unicode.ToLower` applied per rune, not full Unicode case folding.
- A dotless domain such as `localhost` is valid.

## Model

| member | source | states |
|---|---|---|
| Unicode.IsSpace | disposable.go:167 | `unicode.IsSpace`: the runes with the Unicode White_Space property |
| Unicode.IsSpaceLatin1 | disposable.go:167 | below U+0100, exactly '\t', '\n', '\v', '\f', '\r', ' ', U+0085 and U+00A0 are white space |
| Unicode.ToLowerRune | disposable.go:139 | `unicode.ToLower` maps ASCII 'A'..'Z' to 'a'..'z' and fixes every other ASCII rune; '.' and '+' are lower case of themselves only |
| Strings.Count | disposable.go:83-84 | the number of separators is at most the length and is zero exactly when the separator does not occur |
| Strings.Index | disposable.go:117 | the first occurrence of the separator, or -1 exactly when it does not occur; no separator before it |
| Strings.IndexCut | disposable.go:117 | the first separator cuts a string into a separator-free prefix, the separator, and the rest |
| Strings.IndexAfterPrefix | disposable.go:117 | after a separator-free prefix, the first separator sits at the prefix's length |
| Strings.CountConcat | disposable.go:83-84 | counts add up over concatenation |
| Strings.CountAround | disposable.go:83-84 | a separator between two strings adds exactly one to their counts |
| Strings.Split | disposable.go:83 | `strings.Split` yields at least one piece, none of which holds the separator |
| Strings.JoinCons | disposable.go:83 | joining a first piece to more pieces puts one separator between them |
| Strings.SplitStep | disposable.go:83 | a split cuts at the first separator and splits the rest |
| Strings.JoinSplit | disposable.go:83 | splitting loses nothing: joining the pieces with the separator gives the input back |
| Strings.SplitJoin | disposable.go:83 | pieces free of the separator, joined and split again, come back unchanged |
| Strings.SplitCount | disposable.go:83-84 | a split yields exactly one piece more than there are separators, so `len(splits) != 2` means "not exactly one '@'" |
| Strings.CountOneTail | disposable.go:83-84 | with exactly one separator, the text after the first one holds none |
| Strings.SplitOnce | disposable.go:83-89 | with exactly one '@', the two pieces are the text before and the text after it |
| Strings.SplitAtOne | disposable.go:83-89 | `a + "@" + b`, with no '@' in `a` or `b`, splits into exactly `[a, b]` |
| Strings.JoinLast | disposable.go:179-180 | in a join of several pieces, the last piece follows the final separator |
| Strings.SplitN | disposable.go:117-118 | `strings.SplitN(s, sep, n)` yields at most `n` pieces, and at least one when `n > 0` |
| Strings.SplitNStep | disposable.go:117 | with room for more pieces, `SplitN` cuts at the first separator |
| Strings.SplitFirst | disposable.go:117-121 | `SplitN(s, "+", 2)` gives `[s]` with no '+'; otherwise two pieces, the first free of '+', with `s == first + "+" + second` |
| Strings.JoinSplitFirst | disposable.go:117-121 | the pieces of `SplitN(s, sep, 2)`, joined with the separator, give `s` back |
| Strings.SplitNAtFirst | disposable.go:117-121 | cut at a known first separator, `SplitN(_, sep, 2)` gives the two sides back |
| Strings.RemoveAll | disposable.go:124 | `strings.ReplaceAll(s, ".", "")` shortens `s` by exactly the number of '.' it holds |
| Strings.RemoveAllRemoves | disposable.go:124 | `strings.ReplaceAll(s, ".", "")` leaves no '.' |
| Strings.RemoveAllCount | disposable.go:124 | `ReplaceAll(s, ".", "")` removes only '.': every other character occurs as often as before |
| Strings.RemoveAllConcat | disposable.go:124 | removal works piece by piece over concatenation |
| Strings.RemoveAllOne | disposable.go:124 | removing the only '.' glues the two sides together |
| Strings.RemoveAllAround | disposable.go:124 | removal passes over a kept character, working on each side of it |
| Strings.RemoveAllAbsent | disposable.go:124 | a string without '.' is unchanged, so removal is idempotent |
| Strings.TrimLeftSpace | disposable.go:68 | the leading trim drops only white space, and what is left starts with a non-space |
| Strings.TrimRightSpace | disposable.go:68 | the trailing trim drops only white space, and what is left ends with a non-space |
| Strings.TrimSpace | disposable.go:68 | `strings.TrimSpace` returns an empty string or one that starts and ends with a non-space |
| Strings.TrimLeftCut | disposable.go:68 | the leading trim cuts a run of white space from the start |
| Strings.TrimRightCut | disposable.go:68 | the trailing trim cuts a run of white space from the end |
| Strings.TrimSpaceCuts | disposable.go:68 | the input is white space, then the trimmed text, then white space |
| Strings.TrimSpaceCount | disposable.go:68 | trimming keeps every non-space character: '@' occurs as often before as after |
| Strings.TrimSpaceUnique | disposable.go:68 | whatever lies between white-space runs, if it starts and ends with a non-space, is the trim's result |
| Strings.TrimLeftUnique | disposable.go:68 | the leading trim of a white-space run followed by text starting with a non-space is exactly that text |
| Strings.TrimRightUnique | disposable.go:68 | the trailing trim of text ending with a non-space followed by a white-space run is exactly that text |
| Strings.TrimSpaceIdempotent | disposable.go:68 | trimming twice is trimming once |
| Disposable.LowerCase | disposable.go:137-142 | `toLower`'s output has the input's length and holds, at each position, the lower case of the input's rune there |
| Disposable.ToLower | disposable.go:137-142 | the loop that appends one lower-cased rune per iteration builds exactly `LowerCase(s)` |
| Disposable.IsValidDomain | disposable.go:147-185 | the domain `ValidateDomain` accepts: non-empty; neither '.' nor '-' first or last; only `[a-z0-9._-]`; every '.' followed by at least two characters |
| Disposable.FinalLabelCheck | disposable.go:178-182 | `len(splits) > 1 && len(last split) < 2` over `strings.Split(domain, ".")` holds exactly when some '.' has fewer than two characters after it |
| Disposable.LastLabel | disposable.go:178-182 | in `front + "." + last` with no '.' in `last`, some '.' is followed by fewer than two characters exactly when `last` is shorter than two |
| Disposable.ValidateDomain | disposable.go:147-185 | returns true exactly when the domain is valid: non-empty; no '.' or '-' at either end; only `[a-z0-9._-]`; every '.' followed by at least two characters |
| Disposable.ParseEmail | disposable.go:65-109 | `email` is always the trimmed input; on failure the rest of the record is zero; on success the domain is valid, the local part holds no '@', and `disposable` holds exactly when the domain is in the blocklist |
| Disposable.GmailRule | disposable.go:115-124 | the gmail branch: `SplitN(localPart, "+", 2)`; with two pieces the first is kept and preferred and the second is the suffix; then every '.' goes from the kept part |
| Disposable.Normalize | disposable.go:111-135 | `normalize`: the gmail rule at gmail.com and no rule elsewhere, then lower-casing unless case-sensitive; its properties are `NormalizeGmail` and `NormalizeOtherDomain` |
| ParseProperties.LowerCaseAscii | disposable.go:137-142 | `toLower` preserves length, maps ASCII capitals to their lower case, and leaves other ASCII unchanged |
| ParseProperties.LowerCaseDomainChars | disposable.go:137-142 | a string of `[a-z0-9._-]` characters is its own lower case |
| ParseProperties.LowerCaseRemoveDots | disposable.go:124-133 | lower-casing commutes with removing the dots |
| ParseProperties.LowerCaseConcat | disposable.go:137-142 | lower-casing works piece by piece over concatenation |
| ParseProperties.LowerCaseKeepsOut | disposable.go:133 | lower-casing a string free of '.' and '+' keeps it free of both |
| ParseProperties.ValidDomainIsLowerCase | disposable.go:144-147 | a valid domain is lower case and holds no '@' and no white space |
| ParseProperties.ValidateDomainExamples | disposable.go:153-182 | "-bad.com", "x.c", "good.com." and a domain with a tab are rejected; "good.co" and the dotless "localhost" are accepted |
| ParseProperties.NormalizeOtherDomain | disposable.go:111-113 | for any domain other than gmail.com, `preferred` is the local part, `extra` is empty, and `normalized` is the local part, lower-cased unless case-sensitive |
| ParseProperties.GmailRuleCut | disposable.go:115-124 | with a '+', the text before the first '+' is kept (without its dots) and preferred, and all text after it, further '+' included, is the suffix |
| ParseProperties.GmailRuleWhole | disposable.go:115-124 | without a '+', only the dots are removed, `preferred` is the whole local part, and the suffix is empty |
| ParseProperties.NormalizeGmail | disposable.go:111-135 | at gmail.com, `preferred` is the text before the first '+' and `localPart == preferred + "+" + extra`, or everything and an empty `extra` without a '+'; `normalized` is `preferred` without dots, lower-cased unless case-sensitive, so it holds neither '.' nor '+' |
| ParseProperties.GmailRuleIgnoresDots | disposable.go:115-124 | the local part the gmail rule keeps is the same with or without the input's dots |
| ParseProperties.GmailRuleIgnoresDotsCut | disposable.go:115-124 | the same, for a local part holding a '+' |
| ParseProperties.GmailIgnoresDots | disposable.go:29-34 | gmail local parts that differ only in their dots normalize alike (`john.smith` and `johnsmith`) |
| ParseProperties.GmailIgnoresCase | disposable.go:29-34 | case-insensitively, gmail local parts with the same lower case normalize alike (`JohnSmith` and `johnsmith`) |
| ParseProperties.GmailRuleLower | disposable.go:115-133 | the preferred form the gmail rule keeps commutes with lower-casing |
| ParseProperties.LowerCaseKeepsPlusOut | disposable.go:133 | lower-casing a string free of '+' keeps it free of '+' |
| ParseProperties.NormalizeSuffixExample | disposable.go:36-41 | `adam+junk` at gmail.com gives `adam`, preferred `adam`, extra `junk` |
| ParseProperties.NormalizeFirstPlusExample | disposable.go:117-121 | only the first '+' cuts: `a+b+c` keeps `b+c` as the extra part |
| ParseProperties.NormalizeCaseExample | disposable.go:29-34 | `ab` and `Ab` at gmail.com both normalize to `ab` |
| ParseProperties.NormalizeDotsExample | disposable.go:29-34 | `a.b` at gmail.com normalizes to `ab` and keeps `a.b` as the preferred form |
| ParseProperties.NormalizeCaseSensitiveExample | disposable.go:124-130 | case-sensitively, `A.b` at gmail.com loses its dot but keeps its case |
| ParseProperties.NormalizeOtherDomainExample | disposable.go:111-113 | at another domain, `A.b+c` keeps its dots and '+', is lower-cased, and is preferred as written |
| ParseProperties.ParseEmailFailsIff | disposable.go:68-93 | a parse fails exactly when the trimmed input is empty, holds a space, has other than one '@', or the lower-cased text after the '@' is not a valid domain |
| ParseProperties.ParseEmailSucceeds | disposable.go:83-102 | on success `email == localPart + "@" + raw` with `domain == toLower(raw)` valid and lower case; neither part holds '@'; the three forms are those `normalize` gives |
| ParseProperties.ParseEmailComposed | disposable.go:65-109 | composing an address from parts that pass every check and parsing it gives back the local part, the lower-cased domain, its blocklist flag, and the normalized forms |
| ParseProperties.ComposedIsTrimmed | disposable.go:68 | such a composed address is its own trim |
| ParseProperties.ParseEmailIgnoresBlocklist | disposable.go:102-105 | the blocklist changes only the `disposable` flag: the error and every other field are the same for any two lists |
| ParseProperties.ParseEmptyExample | disposable.go:70-72 | the empty string fails with the zero record |
| ParseProperties.ParseSpaceExample | disposable.go:74-76 | `a b@x.com` fails, with only `email` set |
| ParseProperties.ParseAnyCaseGmail | disposable.go:88-102 | at any spelling of gmail.com (`GMAIL.com`, ...), a local part parses as it would at gmail.com |
| ParseProperties.GmailIsValid | disposable.go:115 | `gmail.com` passes `ValidateDomain` |
| ParseProperties.ParseEmailNeedsOneAt | disposable.go:83-86 | an input with no '@', or with more than one, is refused |
| ParseProperties.BlocklistExample | disposable.go:104-105 | `a@t.io` is disposable exactly when the blocklist holds `t.io` |
| ParseProperties.ParseEmptyLocalExample | disposable.go:83-99 | an empty local part (`@x`) is accepted |
| ParseProperties.ParseDotlessExample | disposable.go:178-184 | a dotless domain (`a@x`) is accepted |
| ParseProperties.ParseTabExample | disposable.go:74-76 | only a literal space is refused: `a\tb@x` is accepted |
| ParseProperties.ParseTrimExample | disposable.go:68 | surrounding white space is trimmed before anything else: `"  a@x.com\n"` keeps `a@x.com` |

## Left out

- `Update` in update/update.go is not part of this model. It clones a git
  repository into memory, reads its domain list line by line and swaps the
  package map under an optional lock. That is network and file I/O plus
  concurrency.
- The contents of `DisposableList` are defined outside these files. The model
  takes the list as a parameter.
- Unicode.ToLowerRune: exact for ASCII and Latin-1 only; every rune above
  U+00FF is its own lower case here. Go's full case tables are a foreign
  library table.
- Decoding invalid UTF-8 into U+FFFD when Go ranges over a string is not
  modelled. A string is a sequence of runes.
- Strings.SplitN: only the two-piece use that `normalize` makes
  (`SplitN(s, "+", 2)`) is characterised in full, by `SplitFirst`.
- The documented examples `john.smith`, `johnsmith` and `JohnSmith` are not
  evaluated as literals, because of their cost to the verifier.
  - `GmailIgnoresDots` covers the dot half in general.
  - `GmailIgnoresCase` covers the case half in general.
  - The literal examples use short local parts (`a.b`, `Ab`).
