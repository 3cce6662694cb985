# SiteCheckerGo: scoring core in Dafny

SiteCheckerGo rates how trustworthy a web address is. An orchestrating
engine (`MasterChecker`) first fetches the URL once, with a client that
follows no redirect, and starts from a trust score of 1. When the URL of the
request behind the response differs from the one checked, the engine writes
a redirect note and passes that URL on; when its host (without "www.")
differs too, the score drops to 0.4. Since no redirect is followed, that
request is the one sent, so in the source the host never differs and the
0.4 does not apply. The engine then hands the URL to a set of judges, each
returning a report with notes and a score, and averages the positive scores
with its own seed. It truncates the average to two decimals
and calls the site safe to visit at 0.7 or above.

This project models three parts of the system, with the network results
passed in as inputs:

- **the engine** (module `Core`);
- **the domain-reputation judge** (module `UrlCheck`), a fixed chain of seven
  multiplicative rules over the hostname, the creation-date lookup, the
  page-rank lookup and a list of trusted domains;
- **the header/script judge** (module `SecCheck`), which applies 0.6 for each of
  three dangerous script functions called at least once in the page body
  (once per function, however many calls) and a per-header factor for each
  missing security header.

Scores are exact `real`s. Report text is a sequence of `Note` values: the
model keeps which line was written, not its wording, nor every argument.
Module `Strings` holds the few functions of Go's `strings` package the
checkers use. Module `Wrappers` holds an `Option` type.

Each part of the source that works step by step is modelled by a method with
loops. Each such method is proved against a specification function, and the
properties are proved about those functions:

- `Core.RunJudges` is specified by `Core.Fold` and `Core.Aggregate`;
- `UrlCheck.Check` is specified by `UrlCheck.Apply` over `UrlCheck.Rules`;
- `SecCheck.Check` is specified by `SecCheck.Score`.

The header loop in `SecCheck.CheckHeaders` takes the entries of the
required-header map in an arbitrary order, the way Go's map iteration does.
The score it produces is a function of which headers were visited, not of
the order of the visits.

## Model

| member | source | states |
|---|---|---|
| Strings.TrimPrefix | src/core/core.go:34 | strings.TrimPrefix removes one leading copy of the prefix when present and otherwise returns the string unchanged |
| Strings.TrimPrefixOfPrefixed | src/core/core.go:34 | exactly one copy goes: trimming a prefix that was just added gives back the original string, even one that itself starts with the prefix |
| Strings.Count | src/urlcheck/urlChecker.go:55 | strings.Count is at most the length and is zero exactly when the character does not occur |
| Strings.CountConcat | src/urlcheck/urlChecker.go:55 | the count of a concatenation is the sum of the counts |
| Strings.Split | src/urlcheck/urlChecker.go:98 | strings.Split yields one more part than there are separators, and no part holds the separator |
| Strings.JoinSplit | src/urlcheck/urlChecker.go:98 | joining the parts with the separator rebuilds the string |
| Strings.SplitJoin | src/urlcheck/urlChecker.go:98 | splitting a join of separator-free parts gives back the parts |
| Core.NormalizeHost | src/core/core.go:34 | a host starting with "www." loses exactly that prefix; any other host is unchanged |
| Core.Redirects | src/core/core.go:52 | the response's URL counts as a redirect when it is non-empty and differs from the URL checked |
| Core.Target | src/core/core.go:52-56 | every judge gets the URL checked or the response's URL, and a different URL only after a redirect |
| Core.Seed | src/core/core.go:52-60 | the seed is 1.0 or 0.4, 0.4 exactly after a redirect whose host without "www." differs; a response whose host is the one checked, which is all the source's fetch returns, gives 1.0 |
| Core.WwwRedirectUnpenalised | src/core/core.go:52-60 | a redirect between a host and its "www." form is to the same host, so the seed stays 1.0 |
| Core.RedirectPenaltyExamples | src/core/core.go:52-60 | the branch as written: www.example.com to example.com keeps the seed at 1.0; a final URL on example.org for example.com would give 0.4 |
| Core.Truncate | src/core/core.go:104 | Go's int conversion of a float truncates toward zero, for both signs |
| Core.Round | src/core/core.go:103-105 | round keeps two decimals by truncation: for v >= 0, round(v) <= v < round(v) + 0.01; the mirrored bound for v < 0; round(v)*100 is an integer |
| Core.RoundTruncates | src/core/core.go:103-105 | 0.996 rounds to 0.99, not 1.00, and 0.7 stays 0.7 |
| Core.Fold | src/core/core.go:65-66 | the count of the fold never drops below its starting value, so with the seed count 1 the divisor is at least 1 |
| Core.Add | src/core/core.go:79-85 | a report with a positive score adds its score to the total and 1 to the count; any other leaves the tally as it is |
| Core.JudgeLine | src/core/core.go:79-85 | a positive score writes a result line with the judge's text, any other an error line |
| Core.Aggregate | src/core/core.go:65-93 | the final score is round of the total over the count, folded from the seed and count 1 |
| Core.Record | src/core/core.go:79-85 | a report with a positive score adds its score to the total and 1 to the count; any other report leaves both alone; either way one line, result or error, is appended |
| Core.JudgeLines | src/core/core.go:79-85 | one line per judge report |
| Core.JudgeLinesAt | src/core/core.go:79-85 | the i-th line is the line of the i-th report |
| Core.Results | src/core/core.go:69-74 | one report per judge |
| Core.Check | src/core/core.go:25-101 | a parse failure gives score 0 and the invalid-URL note; a fetch failure gives score 0 and the connection note; neither runs a judge. Otherwise every judge gets the redirected URL (or the original one), a redirect note is written when the URL changed, the score is the truncated average seeded by Seed, and the verdict is safe exactly when the score is >= 0.7 |
| Core.RunJudges | src/core/core.go:62-100 | the loop over the judges computes Aggregate of the seed and their reports, writes their lines in order and appends the final score and its verdict (safe iff >= 0.7) |
| Core.AddCommutes | src/core/core.go:79-85 | two reports counted in either order leave the same total and count |
| Core.FoldPermutation | src/core/core.go:62-90 | any permutation of the reports gives the same total and count |
| Core.AggregateOrderIndependent | src/core/core.go:62-93 | the final score is the same for every order in which the judges finish |
| Core.FoldBounds | src/core/core.go:65-93 | with reports scored at most 1 the total stays between 0 and the count |
| Core.AggregateInUnitInterval | src/core/core.go:65-93 | a seed in [0, 1] and judge scores at most 1 give a final score in [0, 1] |
| Core.FailedReportsIgnored | src/core/core.go:79-85 | reports scored at most 0 change neither total nor count |
| Core.AllJudgesFail | src/core/core.go:65-93 | when every judge fails, the final score is the seed (1.0 or 0.4) and every judge's line is an error line |
| UrlCheck.PageRank | src/urlcheck/urlChecker.go:140-169 | getPageRank returns 0 on every error path |
| UrlCheck.SiteName | src/urlcheck/urlChecker.go:97-103 | the site name holds no dot, and is "" for a hostname without a dot |
| UrlCheck.SiteNameIsSecondToLastLabel | src/urlcheck/urlChecker.go:97-103 | for a hostname of two or more labels the site name is the second-to-last label |
| UrlCheck.Substitutions | src/urlcheck/urlChecker.go:183-195 | at most one note per character, each naming a substituted letter |
| UrlCheck.SubstitutionsConcat | src/urlcheck/urlChecker.go:186-190 | the notes of a concatenation are the notes of its parts in order: one note per occurrence, in hostname order |
| UrlCheck.SubstitutionsEmpty | src/urlcheck/urlChecker.go:183-195 | no notes ("OK") exactly when no character of the hostname is in the eight-entry table |
| UrlCheck.CheckAlphabetSubstitution | src/urlcheck/urlChecker.go:183-195 | the rune loop collects exactly Substitutions, and answers "OK" exactly when no character is in the table |
| UrlCheck.CheckDigit | src/urlcheck/urlChecker.go:197-204 | "OK" exactly when no character is in '0'..'9'; otherwise the one note naming the hostname |
| UrlCheck.FirstSimilar | src/urlcheck/urlChecker.go:78-84 | the index found is similar and every entry before it is not; none found means no entry is similar |
| UrlCheck.FindSimilarTrusted | src/urlcheck/urlChecker.go:78-84 | the loop with break finds an entry exactly when some entry is similar, and it is the first one in list order |
| UrlCheck.TrustedAtMostOnce | src/urlcheck/urlChecker.go:76-84 | the trusted rule applies 0.4 exactly when some entry is similar, then once, with the note naming the first similar entry; otherwise it does nothing, in particular for an empty list |
| UrlCheck.AnalyzeCreationDate | src/urlcheck/urlChecker.go:171-181 | one note; factor 0.4 exactly for a site created less than six months ago, 1 otherwise (the over-five-years branch included) |
| UrlCheck.Confusable | src/urlcheck/urlChecker.go:184 | the eight-entry table: Cyrillic е, о, с, р, а, ь and the stand-ins '0' and '@', each with the Latin letter it imitates |
| UrlCheck.DateRule | src/urlcheck/urlChecker.go:31-40 | without a creation date, 0.3 and the unknown-date note when the page rank is below 4, nothing otherwise; with one, analyzeCreationDate |
| UrlCheck.RankRule | src/urlcheck/urlChecker.go:43-52 | a rank error writes its note at factor 1; a rank below 4 costs 0.3 with its note; any other rank writes its note at factor 1 |
| UrlCheck.SubdomainRule | src/urlcheck/urlChecker.go:55-58 | 0.5 exactly when the hostname has more than two dots |
| UrlCheck.HyphenRule | src/urlcheck/urlChecker.go:61-64 | 0.7 exactly when the hostname contains '-' |
| UrlCheck.SubstitutionRule | src/urlcheck/urlChecker.go:67-70 | 0.5 with the substitution notes exactly when there are any |
| UrlCheck.DigitRule | src/urlcheck/urlChecker.go:71-74 | 0.7 with the digit note exactly when the hostname has a digit |
| UrlCheck.TrustedRule | src/urlcheck/urlChecker.go:77-84 | 0.4 with a note naming the first similar trusted entry, nothing when none is similar |
| UrlCheck.Then | src/urlcheck/urlChecker.go:23-84 | applying a rule appends its notes and multiplies the score by its factor |
| UrlCheck.Apply | src/urlcheck/urlChecker.go:23-84 | the rules applied in order to the report that starts with no text and score 1 |
| UrlCheck.Rules | src/urlcheck/urlChecker.go:30-84 | the chain has seven rules |
| UrlCheck.RulesApplied | src/urlcheck/urlChecker.go:22-87 | the chain applies date, page rank, subdomains, hyphen, substitutions, digits and trusted domains in that order, starting from score 1 |
| UrlCheck.Check | src/urlcheck/urlChecker.go:22-87 | URLchecker.Check produces exactly the rule chain applied to the report starting at score 1 |
| UrlCheck.CheckLookups | src/urlcheck/urlChecker.go:30-52 | the date and page-rank sections apply the date rule and then the rank rule |
| UrlCheck.CheckHostname | src/urlcheck/urlChecker.go:54-74 | the subdomain, hyphen, substitution and digit sections apply their rules in that order |
| UrlCheck.RuleFactorsInRange | src/urlcheck/urlChecker.go:30-84 | every rule multiplies by a factor in (0, 1] |
| UrlCheck.ApplyBounds | src/urlcheck/urlChecker.go:23-84 | rules with factors in (0, 1] keep a score starting at 1 in (0, 1] |
| UrlCheck.ApplyUnpenalised | src/urlcheck/urlChecker.go:23-84 | the score stays 1 exactly when no rule applies a factor below 1 |
| UrlCheck.ScoreInRange | src/urlcheck/urlChecker.go:22-87 | the judge's score lies in (0, 1], so the engine always counts it as a result |
| UrlCheck.MissingDatePenalties | src/urlcheck/urlChecker.go:31-52 | a missing date with a rank below 4 compounds 0.3 and 0.3 to 0.09; after a rank error the rank reads 0, so a missing date always costs 0.3 and the rank rule costs nothing |
| UrlCheck.ZeroTriggersBoth | src/urlcheck/urlChecker.go:66-74 | a '0' in the hostname triggers both the 0.5 substitution and the 0.7 digit penalty |
| UrlCheck.HyphenAndDigitsExample | src/urlcheck/urlChecker.go:54-84 | exa-mple123.com with no trusted domains: the hyphen and digit rules fire with 0.7 each, the subdomain, substitution and trusted rules do not |
| UrlCheck.NoConfusableIn | src/urlcheck/urlChecker.go:184 | a hostname of lower-case letters, digits 1-9, '-' and '.' has no confusable character |
| SecCheck.CallAt | src/seccheck/secChecker.go:49-50 | the pattern `\b<name>\s*\(` matches at a position: an ASCII word boundary, the name, optional `\s` characters, then "(" |
| SecCheck.HasCall | src/seccheck/secChecker.go:49-50 | FindString is non-empty exactly when the pattern matches at some position |
| SecCheck.UnsafeFactor | src/seccheck/secChecker.go:47-54 | 0.6 for each searched name whose pattern matches |
| SecCheck.UnsafeNotes | src/seccheck/secChecker.go:47-54 | at most one note per searched name, each an unsafe-call note |
| SecCheck.UnsafeNotesCount | src/seccheck/secChecker.go:48-53 | each searched name that is called gets exactly one note, however often it is called; any other name gets none |
| SecCheck.UnsafeFactorCountsNotes | src/seccheck/secChecker.go:48-53 | the unsafe-call factor is 0.6 raised to the number of notes written |
| SecCheck.UnsafeFactorBounds | src/seccheck/secChecker.go:47-54 | the unsafe-call factor lies between 0.6 to the number of names and 1 |
| SecCheck.CallWithSpaces | src/seccheck/secChecker.go:49-50 | "eval (" matches: spaces may separate name and parenthesis |
| SecCheck.CallAfterNew | src/seccheck/secChecker.go:49-50 | "new Function(" matches the Function pattern |
| SecCheck.NoCallInsideWord | src/seccheck/secChecker.go:49-50 | "myeval(" does not match eval: no word boundary before the name |
| SecCheck.NoCallOfPrefix | src/seccheck/secChecker.go:49-50 | "evaluate(" does not match eval: only spaces may follow the name before "(" |
| SecCheck.CanonicalizeAt | src/seccheck/secChecker.go:64 | canonicalization upper-cases the first character and each one after a hyphen and lower-cases the rest |
| SecCheck.CanonicalKey | src/seccheck/secChecker.go:64 | the canonical key has the length of the name |
| SecCheck.CanonicalKeyIdempotent | src/seccheck/secChecker.go:64 | canonicalizing twice changes nothing |
| SecCheck.CanonicalKeyIgnoresCase | src/seccheck/secChecker.go:64 | valid names that differ only in letter case have the same canonical key |
| SecCheck.Get | src/seccheck/secChecker.go:64 | a non-empty Get result is the first value stored under the canonical key |
| SecCheck.GetIgnoresCase | src/seccheck/secChecker.go:64 | Get reads a header the same way whatever the case of the name asked for |
| SecCheck.Missing | src/seccheck/secChecker.go:64 | a required header counts as missing when Get reads it as "" |
| SecCheck.MissingCases | src/seccheck/secChecker.go:64 | a header is missing exactly when its key is absent, has no value, or has an empty first value, so present but empty counts as missing |
| SecCheck.Absent | src/seccheck/secChecker.go:63-64 | the absent set is exactly the table's names that Get reads as empty |
| SecCheck.HeadersNotesCount | src/seccheck/secChecker.go:63-67 | each visited required header that is missing gets exactly one note; any other header gets none |
| SecCheck.VisitFactor | src/seccheck/secChecker.go:63-67 | visiting a header multiplies the score by its factor when it is missing and leaves it unchanged otherwise, whatever was visited before |
| SecCheck.VisitNotes | src/seccheck/secChecker.go:63-67 | visiting a header adds its note when it is missing, whatever was visited before |
| SecCheck.Score | src/seccheck/secChecker.go:15-71 | the judge's score: the unsafe-call factor times the factor of every missing required header |
| SecCheck.Check | src/seccheck/secChecker.go:15-71 | the score is Score of body and headers; the text is the unsafe-call notes in search order followed by the missing-header notes in some order |
| SecCheck.CheckHeaders | src/seccheck/secChecker.go:56-68 | the header loop, in any map order, multiplies by the factor of every missing header and writes one note for each |
| SecCheck.CheckHeader | src/seccheck/secChecker.go:64-67 | one turn of the header loop moves the score and notes from the visited headers to those plus one more |
| SecCheck.RequiredTable | src/seccheck/secChecker.go:57-62 | the table lists four distinct required headers |
| SecCheck.RequiredHeaders | src/seccheck/secChecker.go:57-62 | the required headers and their factors: Content-Security-Policy 0.7, X-XSS-Protection 0.8, Strict-Transport-Security 0.7, X-Frame-Options 0.8 |
| SecCheck.RequiredPenalties | src/seccheck/secChecker.go:57-62 | the factors are in (0, 1], and three calls with all four headers missing give 0.6^3*0.7*0.8*0.7*0.8 |
| SecCheck.ScaledBounds | src/seccheck/secChecker.go:63-68 | the header factors never raise the score and never lower it below the all-missing product |
| SecCheck.ScaledAllMissing | src/seccheck/secChecker.go:63-68 | with every header visited and missing, the score is the all-missing product |
| SecCheck.ScoreBounds | src/seccheck/secChecker.go:15-71 | the score lies between 0.6^3*0.7*0.8*0.7*0.8 and 1, so it is never 0 |
| SecCheck.MinScoreReached | src/seccheck/secChecker.go:47-68 | all three calls and all four headers missing give exactly the minimum |
| SecCheck.MinScoreExample | src/seccheck/secChecker.go:47-68 | "eval(Function(setInterval(" with no headers scores the minimum |
| SecCheck.ExampleUnsafe | src/seccheck/secChecker.go:47-54 | a body "eval(x)" writes one eval note and gives factor 0.6 |
| SecCheck.ExampleMissing | src/seccheck/secChecker.go:57-64 | with the other three headers set, Content-Security-Policy alone is missing |
| SecCheck.OnlyCspMissing | src/seccheck/secChecker.go:57-68 | with only Content-Security-Policy missing, the score is the unsafe-call factor times 0.7 |
| SecCheck.ExampleScore | src/seccheck/secChecker.go:47-68 | a body with eval( and only Content-Security-Policy missing scores 0.6*0.7 = 0.42 |

## Left out

- Core.Seed: the fetch outcome is an unconstrained input, so the model also covers a final URL on another host, which gets the 0.4 penalty (the second example of `Core.RedirectPenaltyExamples`). In the source the client follows no redirect, so the response's request is always the one sent for the URL checked and its host is the original one; `Core.Seed` states that for that outcome the seed is 1.0.
- Network and file I/O: the model takes their results as inputs. This covers:
  - the engine's GET (`Core.ParseOutcome`, `Core.FetchOutcome`);
  - the judges' own requests (a judge is a function from URL to report);
  - WHOIS (`UrlCheck.CreationAge`, `None` for a failed lookup or a zero date);
  - OpenPageRank and its configuration file (`UrlCheck.RankLookup`);
  - the trusted-domain file (the `trusted` list).
- The header/script judge's request is also an input: the body and the header map of the response. When NewRequest fails, the source sets a header on a nil request and panics; when the request fails, it dereferences a nil response and panics. The model does not cover those paths, nor the error of ReadAll, which the source only prints.
- Core.RunJudges: the judges run one after another in slice order, while the source runs them as goroutines under a mutex. The lines are then written in completion order. `Core.AggregateOrderIndependent` shows that the total, the count and the score do not depend on that order; the order of the lines is not modelled.
- The Jaro-Winkler similarity (threshold 0.9) of the trusted-domain check is the parameter `similar`.
- Floating-point rounding: scores are exact reals. Go's int overflow when round converts a huge value is not modelled.
- `time.Now` and `AddDate`: the three date comparisons of analyzeCreationDate are the booleans of `UrlCheck.CreationAge`.
- `url.Parse` and `Hostname()`: the judges receive the hostname directly.
- Message texts, `%T` type names and the `%.2f` formatting of the final score: notes are `Note` values.
- Two kinds of note argument are not kept: the error value printed in the invalid-URL and connection-failure notes (`Core.InvalidUrl`, `Core.ConnectionFailed`), and the creation date printed in the four age notes (`CreatedWithinSixMonths`, `CreatedWithinYear`, `CreatedOverFiveYears`, `CreatedOverYear`), since the model takes only the outcome of the parse, of the fetch and of the date comparisons.
- SecCheck.Check: the missing-header notes are stated as a multiset, because Go's map iteration order is unspecified.
- Strings are sequences of characters: the decoding of invalid UTF-8 in the rune loops is not modelled.
- src/sslcheck/sslChecker.go and main.go are not part of this model.
