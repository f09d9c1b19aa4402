# Response-header parsing and the all-or-nothing pass of Takes

This project models two components of the Takes web framework in Dafny and proves properties about them.

**`RsHeaders`** (`rs_headers.dfy`) parses the head of an HTTP response:
- The head must have at least one line.
- The status line, line 0, is skipped.
- Every later line is split at its first colon. The trimmed, lower-cased left part is the header's name. The trimmed right part is its value.
- Each value is appended to its name's list.
- A later line without a colon fails the whole parse.

`Base` answers `header(key)` and `names()` over the parsed table. `Smart` adds `single(name)`, which fails when the header is absent, and `single(name, def)`, which falls back to `def`.

**`PsAll`** (`ps_all.dfy`) combines a list of authentication passes:
- The constructor copies the list and validates the index of the pass whose identity is returned.
- `enter` succeeds only if every pass finds an identity in the request. It then returns the chosen pass's identity.
- `exit` delegates to the chosen pass.

`text.dfy` defines the string helpers the parser relies on:
- `String.trim`, which strips every character at or below U+0020 from both ends.
- ASCII lower-casing.
- The search for the first colon.
- Java's `%d` rendering of integers, used in the diagnostics, with ASCII digits as in a locale whose zero digit is '0'.

`wrappers.dfy` holds `Option` and `Result`.

How the model is built:
- **The parse.** The parse is specified by the function `Parse`, a fold over the lines that mirrors the source loop. The method `Base.Map` is that loop, written imperatively: a `while` loop that builds the map and returns early on a bad line. Its postcondition is `r == Parse(head)`.
- **Reference definitions.** `NamesOf` and `ValuesOf` describe the parsed table independently of the fold; `ValuesOf` filters the lines by name. The lemmas `FoldKeys`, `FoldValues`, `ParseTable`, `ParseSucceedsIff` and `ParseFailsFast` connect the two views.
- **Lookups.** The functions `Base.Header`, `Base.Names`, `Smart.Single` and `Smart.SingleOr` state their results in terms of those reference definitions.
- **Passes.** A pass is a pair of total functions: `enter` from a request to an optional identity, and `exit` from a response and an identity to a response. `PsAll` is a class with two `const` fields.
- **Construction.** The Java constructor can throw, so it is modelled by the static method `PsAll.Create`. Create returns either the new object or the validation error.
- **The loop in `allMatch`.** `AllMatch` is a `for` loop with an early `break`. A ghost out-parameter counts the passes consulted, which shows that the loop stops at the first refusal.

Two consequences of the code are worth stating:
- **The queried name is not trimmed.** Stored names are trimmed and lower-cased (`RsHeaders.java:149-151`). The name given to `header` is only lower-cased (`RsHeaders.java:86-89`). `QueryNotTrimmed` proves the consequence: a query that starts with a blank never finds a value, because stored names never start with one.
- **`Smart` wraps a `Base`.** In the source, `Smart` itself implements `RsHeaders` (`RsHeaders.java:173`), and its constructor accepts any `RsHeaders` (`RsHeaders.java:183-185`), so it can also wrap another `Smart`. A `Smart` wrapped in a `Smart` delegates `header` and `names` to the same `Base`, so nothing observable is lost by giving the model's `Smart` a `Base` directly.

Parsing is deterministic: `Parse` is a function, and `Base.Map` is proved equal to it. Re-parsing the same head therefore always yields the same table.

## Model

| member | source | states |
|---|---|---|
| `Text.TrimSpec` | src/main/java/org/takes/rs/RsHeaders.java:149-158 | `Trim` (Java `String.trim`) is empty exactly when every character is at or below the space; otherwise its first and last characters are significant, and it is no longer than its input |
| `Text.TrimStartSpec` | src/main/java/org/takes/rs/RsHeaders.java:149-158 | stripping the front removes a prefix of trimmable characters and stops at the first significant one |
| `Text.TrimEndSpec` | src/main/java/org/takes/rs/RsHeaders.java:149-158 | stripping the back removes a suffix of trimmable characters and stops at the last significant one |
| `Text.TrimAround` | src/main/java/org/takes/rs/RsHeaders.java:149-158 | trimming `prefix + core + suffix` gives exactly `core` when the prefix and suffix are blank and the core's ends are significant |
| `Text.TrimIdempotent` | src/main/java/org/takes/rs/RsHeaders.java:149-158 | trimming twice is trimming once |
| `Text.LowerSpec` | src/main/java/org/takes/rs/RsHeaders.java:86-89 | ASCII lower-casing keeps the length and maps each character in place |
| `Text.LowerHasNoCapital` | src/main/java/org/takes/rs/RsHeaders.java:149-151 | a lower-cased name contains no ASCII capital |
| `Text.LowerIdempotent` | src/main/java/org/takes/rs/RsHeaders.java:86-89 | lower-casing twice is lower-casing once |
| `Text.IndexOfSpec` | src/main/java/org/takes/rs/RsHeaders.java:142 | the colon search finds nothing exactly when there is no colon, and otherwise finds the first one |
| `Text.NatToString` | src/main/java/org/takes/facets/auth/PsAll.java:91 | `%d` of a natural number is a non-empty run of decimal digits without a leading zero |
| `Text.NatToStringValue` | src/main/java/org/takes/facets/auth/PsAll.java:91 | the digits `%d` writes for a natural number denote that number, read in base ten |
| `Text.IntToString` | src/main/java/org/takes/facets/auth/PsAll.java:91 | `%d` of an integer starts with a minus sign exactly when the integer is negative |
| `Text.IntToStringValue` | src/main/java/org/takes/facets/auth/PsAll.java:91 | `%d` of an integer is the digits of its magnitude, behind a minus sign exactly when it is negative, and those digits denote the magnitude |
| `RsHeaders.SplitSpec` | src/main/java/org/takes/rs/RsHeaders.java:142-143 | `split(":", 2)` gives two parts exactly when the line holds a colon; the parts joined by a colon give back the line, and the first part holds no colon |
| `RsHeaders.SplitAtFirstColon` | src/main/java/org/takes/rs/RsHeaders.java:142-158 | for `prefix + ":" + suffix` with a colon-free prefix, the name is `lower(trim(prefix))` and the value is `trim(suffix)`; the suffix may hold colons or be empty |
| `RsHeaders.Append` | src/main/java/org/takes/rs/RsHeaders.java:152-159 | adding a value creates the key if it is new and appends to the end of that key's list only |
| `RsHeaders.FoldFailsAt` | src/main/java/org/takes/rs/RsHeaders.java:140-148 | the first line without a colon decides the outcome, whatever follows it and whatever was built before it |
| `RsHeaders.FoldValues` | src/main/java/org/takes/rs/RsHeaders.java:140-160 | when every line has a colon, each key's list gains exactly that key's values, in line order, after what it held |
| `RsHeaders.FoldKeys` | src/main/java/org/takes/rs/RsHeaders.java:140-160 | when every line has a colon, the keys gained are exactly the canonical names of the lines |
| `RsHeaders.FoldSucceedsIff` | src/main/java/org/takes/rs/RsHeaders.java:140-148 | the loop succeeds if and only if every line has a colon |
| `RsHeaders.ValuesOfEmptyIff` | src/main/java/org/takes/rs/RsHeaders.java:152-159 | a name has no values exactly when no line carries it, so no key ever holds an empty list |
| `RsHeaders.ValuesOfConcat` | src/main/java/org/takes/rs/RsHeaders.java:152-159 | the values of earlier lines come before the values of later lines |
| `RsHeaders.ParseEmptyHead` | src/main/java/org/takes/rs/RsHeaders.java:131-137 | the empty head fails with "a valid response must contain at least one line in the head" and no table |
| `RsHeaders.StatusLineIgnored` | src/main/java/org/takes/rs/RsHeaders.java:138 | replacing the status line by any other line, even one with a colon, does not change the parse |
| `RsHeaders.ParseSucceedsIff` | src/main/java/org/takes/rs/RsHeaders.java:131-161 | a head parses if and only if it has a status line and every later line has a colon |
| `RsHeaders.ParseFailsFast` | src/main/java/org/takes/rs/RsHeaders.java:141-148 | the first later line without a colon is the one the failure quotes, verbatim, in `invalid HTTP header: "<line>"` |
| `RsHeaders.EmptyLineRejected` | src/main/java/org/takes/rs/RsHeaders.java:141-148 | an empty line after the status line fails the whole parse instead of being skipped |
| `RsHeaders.ParseTable` | src/main/java/org/takes/rs/RsHeaders.java:139-161 | a parsed table's keys are the canonical names of lines 1..N, and every key holds all its values in line order, duplicates included, never an empty list |
| `RsHeaders.RepeatedName` | src/main/java/org/takes/rs/RsHeaders.java:152-159 | two lines with the same canonical name give one name holding both values, first line first |
| `RsHeaders.Base.Map` | src/main/java/org/takes/rs/RsHeaders.java:130-162 | the imperative loop that fills the map returns exactly `Parse(head)`, including both failures |
| `RsHeaders.Base.Header` | src/main/java/org/takes/rs/RsHeaders.java:84-116 | `header(key)` propagates a parse failure; otherwise it gives the values of the lines named `lower(key)`, or an empty list |
| `RsHeaders.Base.Names` | src/main/java/org/takes/rs/RsHeaders.java:119-121 | `names()` propagates a parse failure; otherwise it gives exactly the canonical names of lines 1..N |
| `RsHeaders.HeaderCaseInsensitive` | src/main/java/org/takes/rs/RsHeaders.java:86-89 | querying a name and its lower-cased form give the same result |
| `RsHeaders.NameStartsSignificant` | src/main/java/org/takes/rs/RsHeaders.java:149-151 | a stored name is empty or starts with a significant character |
| `RsHeaders.QueryNotTrimmed` | src/main/java/org/takes/rs/RsHeaders.java:84-91 | the queried name is lower-cased but not trimmed: a query that starts with a blank finds no value |
| `RsHeaders.Smart.Header` | src/main/java/org/takes/rs/RsHeaders.java:195-199 | `Smart.header` propagates a parse failure of the wrapped head with the same error; otherwise it gives the values of the lines named `lower(name)`, or an empty list |
| `RsHeaders.Smart.Names` | src/main/java/org/takes/rs/RsHeaders.java:201-204 | `Smart.names` propagates a parse failure of the wrapped head with the same error; otherwise it gives exactly the canonical names of lines 1..N |
| `RsHeaders.Smart.Single` | src/main/java/org/takes/rs/RsHeaders.java:222-234 | `single(name)` propagates a parse failure; otherwise it gives the first value for `lower(name)`, or fails naming `name` as given together with the known names |
| `RsHeaders.Smart.SingleOr` | src/main/java/org/takes/rs/RsHeaders.java:244-254 | `single(name, def)` propagates a parse failure; otherwise it gives the first value, or `def` verbatim when there is none |
| `RsHeaders.SingleAbsent` | src/main/java/org/takes/rs/RsHeaders.java:222-254 | for an absent header, `single(name)` fails with `header "<name>" is mandatory, not found among` and the known names, and `single(name, def)` returns `def` |
| `RsHeaders.SinglePresent` | src/main/java/org/takes/rs/RsHeaders.java:222-254 | for a present header, both forms of `single` return its first value and ignore the default |
| `PsAll.Validated` | src/main/java/org/takes/facets/auth/PsAll.java:88-104 | an index is accepted if and only if it is between 0 and the number of passes, excluding that number; a negative index is reported first, then an index that is too large |
| `PsAll.EmptyPassesRejected` | src/main/java/org/takes/facets/auth/PsAll.java:94-102 | no index is valid for an empty list of passes |
| `PsAll.NegativeIndexMessage` | src/main/java/org/takes/facets/auth/PsAll.java:89-93 | a negative index is reported as "Index -N must be >= 0.", whatever the number of passes, where N is the decimal rendering of the index's magnitude |
| `PsAll.TooLargeIndexMessage` | src/main/java/org/takes/facets/auth/PsAll.java:94-102 | an index at or past the end is reported as "Trying to return index I from a list of N passes", where I and N are the decimal renderings of the index and of the number of passes |
| `PsAll.PsAll.Init` | src/main/java/org/takes/facets/auth/PsAll.java:55-58 | the fields hold the copied passes and the validated index |
| `PsAll.PsAll.Create` | src/main/java/org/takes/facets/auth/PsAll.java:55-58 | construction succeeds if and only if the index is valid for the copied list; the new object holds a copy of the caller's passes, keeps `0 <= index < |all|`, and otherwise reports the validation error |
| `PsAll.PsAll.AllMatch` | src/main/java/org/takes/facets/auth/PsAll.java:112-121 | the result is true if and only if every pass finds an identity; the passes are asked in list order, and the loop stops right after the first refusal |
| `PsAll.PsAll.Enter` | src/main/java/org/takes/facets/auth/PsAll.java:60-69 | a refusal by any pass gives no identity; when every pass accepts, the result is exactly the chosen pass's identity |
| `PsAll.PsAll.Exit` | src/main/java/org/takes/facets/auth/PsAll.java:71-80 | the size guard fails exactly when the index is past the end, so it never fails on a validly constructed object, which returns the chosen pass's `exit` unchanged |
| `PsAll.RefusalIsFinal` | src/main/java/org/takes/facets/auth/PsAll.java:61-67 | a single refusal anywhere in the list makes `enter` return nothing |
| `PsAll.CopyIsolates` | src/main/java/org/takes/facets/auth/PsAll.java:56 | writing into the caller's list after construction leaves the constructed pass's list as it was |

## Left out

- `Smart.head()` and `Smart.body()` are left out. They delegate I/O streams and hold no logic.
- Reading the head from the wrapped response (`head()`, which may throw `IOException`) is left out. `Base` is given the head lines directly.
- `RsHeaders.Smart.Single`: the failure carries the known names as a set. `Message` renders the text only up to `not found among `, because the source renders `HashMap.keySet()`, whose order is unspecified.
- `RsHeaders.Base.Header`: the `VerboseList` wrapper is not modelled. Neither are the diagnostics it attaches ("there are no headers by name ..." and "there are only %d headers by name ..."). That metadata does not change the list the caller sees.
- A `Smart` wrapping another `Smart` is not represented. The outer one only delegates `header` and `names` to the inner one, so it answers as the inner one does.
- Lower-casing is ASCII only, standing in for the locale-sensitive `toLowerCase` of the cactoos `Lowered`.
- `Text.IntToString`: `%d` is rendered with ASCII digits, as `String.format` does in a locale whose zero digit is '0'. The digits of other locales, which `String.format` substitutes under the default format locale, are not modelled.
- `RsHeaders.Base.Header`: in the source, every query re-runs `map()`. Functions cannot call methods, so the query functions use `Parse` instead. `Base.Map` is proved equal to `Parse`.
- HTTP status codes of `HttpException` are reduced to the constant 400 returned by `HttpError.Status`.
- `PsAll.PsAll.Enter`: passes are pure functions. The model has no side effects, no nondeterminism and no exceptions from a real `Pass`. The source calls the chosen pass's `enter` twice, and with pure passes both calls agree.
- The caller's list is modelled as an array. Java list semantics beyond element-wise copying are not modelled.
- `src/main/java/org/takes/rs/xe/XeLink.java` is not part of this model. It builds directives of the external Xembly library.
- The tests `RsFakeTest`, `HeadPrintTest`, `TkHtmlTest`, `BodyTempFileTest` and `RsReturnTest` are not part of this model. None of them exercises the header parser or `PsAll`.
- The immutability and thread-safety stated in the doc comments concern concurrency and are not modelled.
