# Mail utility: template population and address checking, in Dafny

This project models the two routines of `MailUtils` (package
`site.codeyin.javautils.utils`) that have logic of their own:

- `populateTemplate(template, values...)` fills positional placeholders. For `i`
  from `0` up to the number of values it runs `template = template.replace("{" + i + "}", values[i])`.
  Each step is a Java `String.replace` over the previous step's output. It
  replaces every non-overlapping occurrence of the literal target, scanning left
  to right.
- `checkEmail(email)` matches the whole input against one fixed regular
  expression: a local part of dot-separated atoms over `[a-zA-Z0-9_+&*-]`, then `@`,
  then one or more labels over `[a-zA-Z0-9-]`, each followed by `.`, then a top-level
  domain of 2 to 7 ASCII letters.

Files and modules:

- `java_string.dfy`, module `JavaString`: the library behaviour the template code
  relies on. `ReplaceAll` models `String.replace`. `Decimal` models the decimal
  text that `"{" + i + "}"` produces. `IndexOf` models `String.indexOf`. Lemmas
  characterise `ReplaceAll` by Java's `indexOf` loop: no match leaves the text
  alone, and the first match found by `indexOf` is replaced before the scan
  resumes after it. `Decimal` has a round trip through
  `ParseDecimal`.
- `mail_template.dfy`, module `MailTemplate`:
  - `Placeholder(i)`.
  - `Populated`, the left fold of `ReplaceAll` over the values, which specifies the result.
  - `PopulateTemplate`, the loop itself, proved against `Populated` by a loop invariant.
  - Lemmas for what the routine does and does not do.
- `mail_address.dfy`, module `MailAddress`: `CheckEmail` writes the regular language
  down structurally, by splitting at `@` and then at `.`. `AddressShape` describes
  the same language character by character, and `CheckEmailIff` proves the two
  equal in both directions. The properties of accepted addresses follow from that.

Notes on the source:

- `MailUtils.java:105-108` replaces in index order, each time over the text
  produced so far. A value that contains a later placeholder `{j}` is therefore
  substituted again at step `j` (`LaterPlaceholderInValueSubstituted`). A value
  that contains no placeholder of a later step, for example only an earlier one,
  stays literal (`PlaceholderInValueKept`).
- The comment at `MailUtils.java:102` announces an arity check, but no code
  performs one. The model follows the code: unmatched placeholders pass through
  (`UnmatchedPlaceholderKept`).

## Model

| member | source | states |
|---|---|---|
| JavaString.ReplaceAll | src/main/java/site/codeyin/javautils/utils/MailUtils.java:107 | `String.replace`: the leftmost match is replaced and the scan resumes after it; its behaviour is stated by the lemmas `ReplaceAllNoMatch`, `ReplaceAllFirstMatch` and `ReplacementOccurs` |
| JavaString.IndexOf | src/main/java/site/codeyin/javautils/utils/MailUtils.java:107 | `String.indexOf`, as `replace` uses it to find each match; specified by `IndexOfLeftmost` |
| JavaString.ReplaceAllNoMatch | src/main/java/site/codeyin/javautils/utils/MailUtils.java:107 | `replace` with a non-empty target that does not occur returns the receiver unchanged |
| JavaString.IndexOfLeftmost | src/main/java/site/codeyin/javautils/utils/MailUtils.java:107 | the `indexOf` search that `replace` uses returns the leftmost occurrence of the target, and -1 exactly when there is none |
| JavaString.ReplaceAllFirstMatch | src/main/java/site/codeyin/javautils/utils/MailUtils.java:107 | with `j = indexOf(target)`, `replace` keeps the text before `j`, emits the replacement, and resumes the scan after the match (Java's `indexOf` loop) |
| JavaString.ReplacementOccurs | src/main/java/site/codeyin/javautils/utils/MailUtils.java:107 | when the target occurs, the replacement text occurs in the result of `replace` |
| JavaString.ReplaceAllPrefix | src/main/java/site/codeyin/javautils/utils/MailUtils.java:107 | a prefix without the target's first character is copied through, and replacement continues on the rest |
| JavaString.ReplaceAllWithoutFirstChar | src/main/java/site/codeyin/javautils/utils/MailUtils.java:107 | a text without the target's first character is returned unchanged |
| JavaString.ReplaceAllWhole | src/main/java/site/codeyin/javautils/utils/MailUtils.java:107 | a text that is exactly the target becomes exactly the replacement |
| JavaString.ReplaceAllIdentity | src/main/java/site/codeyin/javautils/utils/MailUtils.java:107 | replacing a target by itself changes nothing, for every target including the empty one |
| JavaString.Decimal | src/main/java/site/codeyin/javautils/utils/MailUtils.java:107 | the rendering of the index `i` is a non-empty run of decimal digits, with a leading `0` exactly when `i` is zero |
| JavaString.DecimalRoundTrip | src/main/java/site/codeyin/javautils/utils/MailUtils.java:107 | reading the decimal text of `i` back gives `i` |
| JavaString.DecimalInjective | src/main/java/site/codeyin/javautils/utils/MailUtils.java:107 | distinct indices render to distinct texts |
| MailTemplate.Placeholder | src/main/java/site/codeyin/javautils/utils/MailUtils.java:107 | a placeholder is `{`, at least one digit, `}`: only its first character is `{` and only its last is `}` |
| MailTemplate.PlaceholderInjective | src/main/java/site/codeyin/javautils/utils/MailUtils.java:107 | distinct positions have distinct placeholders |
| MailTemplate.PlaceholdersDisjoint | src/main/java/site/codeyin/javautils/utils/MailUtils.java:107 | two placeholder occurrences in a text never overlap unless they are the same occurrence of the same placeholder |
| MailTemplate.OtherPlaceholderUnchanged | src/main/java/site/codeyin/javautils/utils/MailUtils.java:105-108 | the replacement step for position `k` leaves the text `{i}` alone when `i != k` |
| MailTemplate.OtherPlaceholderSurvives | src/main/java/site/codeyin/javautils/utils/MailUtils.java:105-108 | an occurrence of `{k}` survives the replacement step for any other position, whatever the value |
| MailTemplate.Populated | src/main/java/site/codeyin/javautils/utils/MailUtils.java:105-108 | the text after the steps for `values[0]`, ..., `values[n-1]`: each step a `replace` of `{k}` by `values[k]` over the previous output |
| MailTemplate.PopulateTemplate | src/main/java/site/codeyin/javautils/utils/MailUtils.java:101-111 | the loop returns the left fold `Populated`: `{0}` is replaced by `values[0]`, then `{1}` by `values[1]`, and so on, each on the previous output |
| MailTemplate.PopulatedNoValues | src/main/java/site/codeyin/javautils/utils/MailUtils.java:105-110 | with no values the template is returned unchanged |
| MailTemplate.PopulatedStep | src/main/java/site/codeyin/javautils/utils/MailUtils.java:105-108 | one more value adds one more replacement, of its own placeholder, applied to the previous result (strict index order) |
| MailTemplate.PopulatedWithoutBrace | src/main/java/site/codeyin/javautils/utils/MailUtils.java:107 | a template with no `{` comes back unchanged whatever the values |
| MailTemplate.UnmatchedPlaceholderKept | src/main/java/site/codeyin/javautils/utils/MailUtils.java:102-110 | no arity check: an occurrence of `{k}` with `k` at or past the number of values is still in the result, and no error is raised |
| MailTemplate.PlaceholderKeptUntilItsStep | src/main/java/site/codeyin/javautils/utils/MailUtils.java:105-108 | an occurrence of `{k}` present after some step is still present after every later step up to `k` |
| MailTemplate.ExcessPlaceholderVerbatim | src/main/java/site/codeyin/javautils/utils/MailUtils.java:102-110 | the template `{k}` with `k` past the values comes back verbatim |
| MailTemplate.PlaceholderFilled | src/main/java/site/codeyin/javautils/utils/MailUtils.java:105-108 | the template `{i}` becomes `values[i]` when that value holds no `{` |
| MailTemplate.PlaceholderInValueKept | src/main/java/site/codeyin/javautils/utils/MailUtils.java:105-108 | the template `{i}` becomes exactly `values[i]` whenever that value holds no placeholder `{n}` of a later step (`n` above `i` and below the number of values); an earlier placeholder, or one beyond the values, stays literal |
| MailTemplate.LaterPlaceholderInValueSubstituted | src/main/java/site/codeyin/javautils/utils/MailUtils.java:105-108 | for any template holding `{i}` and any `values[i]` holding `{j}`, `i < j`: `{j}` is present just before step `j`, and `values[j]` is present after it |
| MailTemplate.ChainedPlaceholderResolved | src/main/java/site/codeyin/javautils/utils/MailUtils.java:105-108 | the template `{i}` with `values[i]` exactly `{j}`, `i < j`, and `values[j]` free of `{`, ends up exactly `values[j]` |
| MailTemplate.ExampleResubstitution | src/main/java/site/codeyin/javautils/utils/MailUtils.java:105-108 | template `{0}` with values `{1}`, `x` gives `x` |
| MailTemplate.ExampleMissingValue | src/main/java/site/codeyin/javautils/utils/MailUtils.java:102-110 | template `{1}` with the single value `a` gives `{1}` |
| MailAddress.SplitOn | src/main/java/site/codeyin/javautils/utils/MailUtils.java:121 | the pieces between separators, used to read the `@` and `.` structure of the pattern: at least one piece, none holding the separator (with `JoinSplit`, they rebuild the input) |
| MailAddress.JoinSplit | src/main/java/site/codeyin/javautils/utils/MailUtils.java:121 | the pieces used to read the pattern's `@` and `.` structure join back to the input |
| MailAddress.DotAtomsIff | src/main/java/site/codeyin/javautils/utils/MailUtils.java:121 | `X+(?:\.X+)*` accepts exactly the non-empty runs of class characters and dots with no leading, trailing or doubled dot |
| MailAddress.DomainIff | src/main/java/site/codeyin/javautils/utils/MailUtils.java:121 | `(?:[a-zA-Z0-9-]+\.)+[a-zA-Z]{2,7}` accepts exactly: a dot, well-formed labels before the last dot, and 2 to 7 letters after it |
| MailAddress.CheckEmail | src/main/java/site/codeyin/javautils/utils/MailUtils.java:119-126 | `checkEmail`: one `@` between a local part `X+(?:\.X+)*` and a domain `(?:[a-zA-Z0-9-]+\.)+[a-zA-Z]{2,7}`; characterised by `CheckEmailIff` |
| MailAddress.CheckEmailIff | src/main/java/site/codeyin/javautils/utils/MailUtils.java:119-126 | `checkEmail` accepts exactly the strings with one `@`, a well-formed local part before it and a well-formed domain after it (both directions) |
| MailAddress.AcceptedHasOneAt | src/main/java/site/codeyin/javautils/utils/MailUtils.java:121 | an accepted address has exactly one `@`, with a non-empty local part before it and a non-empty domain after it |
| MailAddress.AcceptedLocalPart | src/main/java/site/codeyin/javautils/utils/MailUtils.java:121 | an accepted local part neither starts nor ends with `.`, has no `..`, and otherwise uses only `[a-zA-Z0-9_+&*-]` |
| MailAddress.AcceptedDomain | src/main/java/site/codeyin/javautils/utils/MailUtils.java:121 | an accepted domain contains a `.`; after the last one come 2 to 7 ASCII letters; before it come non-empty `[a-zA-Z0-9-]` labels separated by single dots |
| MailAddress.AcceptedCharacters | src/main/java/site/codeyin/javautils/utils/MailUtils.java:121-125 | every character of an accepted address is visible ASCII from the classes, `.` or `@`, and there are at least six |
| MailAddress.RejectsInvisible | src/main/java/site/codeyin/javautils/utils/MailUtils.java:121-125 | the whole-input match rejects the empty string and any input with whitespace, a line terminator, a control or a non-ASCII character |
| MailAddress.ExampleAccepted | src/main/java/site/codeyin/javautils/utils/MailUtils.java:121 | `a.b@c.de` is accepted |
| MailAddress.ExampleShortTopLevel | src/main/java/site/codeyin/javautils/utils/MailUtils.java:121 | `a@b.c` is rejected: a one-letter top-level domain |
| MailAddress.ExampleDoubleDot | src/main/java/site/codeyin/javautils/utils/MailUtils.java:121 | `a..b@c.de` is rejected: an empty atom in the local part |
| MailAddress.ExampleLongTopLevel | src/main/java/site/codeyin/javautils/utils/MailUtils.java:121 | `a@b.cdefghij` is rejected: an eight-letter top-level domain |
| MailAddress.ExampleTwoAts | src/main/java/site/codeyin/javautils/utils/MailUtils.java:121 | `a@@c.de` is rejected: a second `@` |

## Left out

- `sendMail` (`MailUtils.java:37-77`) builds an SMTP session and calls `Transport.send`. That is network I/O through javax.mail, with no logic of its own.
- `loadEmailTemplate` (`MailUtils.java:87-92`) reads a class-path resource stream. That is I/O.
- The injected `user` and `password` fields (`MailUtils.java:24-28`) are configuration, read only by `sendMail`.
- `JwtUtil.java` is not part of this model. Its signing, payload encoding and verification are done by an external JWT library whose code is not available. It also reads the system clock.
- Inputs are modelled as non-null. In Java a `null` template with at least one value, a `null` values array, or a `null` entry among the values makes `populateTemplate` throw (`MailUtils.java:105`, `:107`), and `checkEmail(null)` throws at `pattern.matcher` (`MailUtils.java:124`). The model takes plain strings and sequences, so these exceptions are not modelled.
- The regular-expression engine (`Pattern.compile`, `Matcher`, backtracking) is not modelled. `CheckEmail` is the language the pattern denotes under whole-input `matches()`.
- Java strings are UTF-16 code units; the model uses Dafny's `char`. Placeholders and every character the address pattern accepts are ASCII, so the two agree for these routines.
- The Java loop index is a 32-bit `int`. The model uses unbounded `nat`. A Java array cannot be longer than the `int` range, so this never changes the outcome.
