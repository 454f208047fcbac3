# Unsplash image filler: a Dafny model of its core

The `unsplash-image-filler` skill fills web pages and articles with Unsplash
photos. Its script `auto_fill.js` does four things:

- It resolves a pool of API access keys from the command line, the
  environment or a configuration file.
- It decides how an article is cut into sections. For `auto` articles
  without headings it samples a few evenly spaced paragraphs, seeded by a
  stable hash of the file path.
- It rewrites `<img data-unsplash-auto|search>` placeholders with a photo's
  `src`, its id and a `data-unsplash-processed` marker.
- It splices the rewritten tags back into the file, last one first.

`unsplash_client.js` holds the `UnsplashClient` class:

- a de-duplicated key pool with a round-robin cursor that starts at a random key;
- request pacing;
- a retry loop that rotates keys on quota limits before it backs off
  exponentially, and retries server and transient network errors;
- an in-memory search cache.

The model is split into these modules:

| module | file | what it holds |
|---|---|---|
| `Wrappers` | `wrappers.dfy` | `Option` and `Result` |
| `Text` | `text.dfy` | the ECMAScript string operations the core uses: `trim`, ASCII `toLowerCase`, `includes`/`indexOf`, first-occurrence `replace`, `String(n)` for counts |
| `Hashing` | `stable_hash.dfy` | `stableHash` over UTF-16 code units with 32-bit wrap-around; the loop is a method proved equal to a fold |
| `SectionSampler` | `section_sampler.dfy` | `chooseSmartParagraphSections`; its loop is a method proved equal to a reference selection |
| `AccessKeys` | `access_keys.dfy` | `parseAccessKeys` and `resolveAccessKeys` |
| `ArticleModes` | `article_mode.dfy` | `normalizeArticleMode` and the mode decision of `processArticle` |
| `Placeholders` | `placeholders.dfy` | the tag rewrite of `processFile`, both as written and corrected; the replacement loop; the reverse-order splice loop, proved equal to a left-to-right splice |
| `RetryPipeline` | `retry_pipeline.dfy` | the recursive `_fetchWithRetry` as a function `Run` over a server `Network`, plus `_isQuotaLimited`, `parseInt`, timer semantics and the properties of the retry policy |
| `Unsplash` | `unsplash_client.dfy` | the `UnsplashClient` class; `_fetchWithRetry` is a loop over its two counters, proved to do what `Run` describes |

The environment becomes parameters:

- **The server** (`fetch`) is a function `Network` from the request number
  and the access key to a response or a thrown error.
- **The clock** (`Date.now()`) is an integer `now` that a method receives.
  Each pacing or backoff wait moves the clock forward by the delay a Node.js
  timer really waits.
- **`Math.random()`** is a real number in `[0, 1)` passed to
  `UnsplashClient.Create`.

## Model

| member | source | states |
|---|---|---|
| Text.IsWhite | unsplash-image-filler/scripts/auto_fill.js:65 | the definition of the characters `trim` strips: ECMAScript WhiteSpace, with the Unicode space separators, and LineTerminator; `TrimStart`, `TrimEnd` and `TrimIsInfix` state that exactly these are removed at the ends and none is left there |
| Text.Trimmed | unsplash-image-filler/scripts/auto_fill.js:65 | the definition: neither end is white space; `Trim` ensures its result is trimmed, and `TrimOfTrimmed` that a trimmed string is its own trim |
| Text.TrimStart | unsplash-image-filler/scripts/auto_fill.js:65 | the result is a suffix of the input, does not start with white space, and only white space was removed |
| Text.TrimEnd | unsplash-image-filler/scripts/auto_fill.js:65 | the result is a prefix of the input, does not end with white space, and only white space was removed |
| Text.Trim | unsplash-image-filler/scripts/auto_fill.js:65 | neither end of the result is white space, and it is no longer than the input; `TrimIsInfix` places it inside the input |
| Text.TrimIsInfix | unsplash-image-filler/scripts/auto_fill.js:65 | the trimmed string is the infix of the input at offset `a`, with only white space before `a` and after its end |
| Text.InfixOfSuffix | unsplash-image-filler/scripts/auto_fill.js:65 | helper: a prefix of a suffix is an infix, and what follows it in the suffix follows it in the input |
| Text.TrimChars | unsplash-image-filler/scripts/auto_fill.js:65 | trimming only removes characters: each character of the result occurs in the input |
| Text.TrimBlank | unsplash-image-filler/scripts/auto_fill.js:66 | a trimmed key is empty, and so dropped by `filter(Boolean)`, exactly when the input is all white space |
| Text.TrimOfTrimmed | unsplash-image-filler/scripts/unsplash_client.js:34 | trimming a string whose ends are not white space leaves it unchanged |
| Text.LowerChar | unsplash-image-filler/scripts/auto_fill.js:145 | helper: the ASCII letter mapping `AsciiLower` applies to each character |
| Text.AsciiLower | unsplash-image-filler/scripts/auto_fill.js:145 | the result has the input's length and maps every character to its lower-case form |
| Text.OccursAt | unsplash-image-filler/scripts/auto_fill.js:384 | the definition: the pattern stands at index `i`; `FindFrom`, `IndexOf` and `IncludesIff` are stated in terms of it |
| Text.FindFrom | unsplash-image-filler/scripts/auto_fill.js:384 | returns the first occurrence of the pattern at or after `from`, or None when there is none |
| Text.IndexOf | unsplash-image-filler/scripts/auto_fill.js:384 | returns the first occurrence of the pattern, or None when it does not occur |
| Text.Includes | unsplash-image-filler/scripts/auto_fill.js:384 | the definition of `s.includes(p)` the tests at lines 384, 427 and 434 use, as a hit of `IndexOf`; `IncludesIff` states it holds exactly when the pattern occurs at some index, `IncludesWithin` and `AbsentChar` how it behaves under concatenation and for missing characters |
| Text.IncludesIff | unsplash-image-filler/scripts/auto_fill.js:384 | `includes` holds exactly when the pattern occurs at some index |
| Text.ReplaceFirst | unsplash-image-filler/scripts/auto_fill.js:424 | the input is unchanged without an occurrence; otherwise only the first occurrence is replaced |
| Text.OccursInMiddle | unsplash-image-filler/scripts/auto_fill.js:435 | helper: a pattern put between two strings occurs right after the first |
| Text.IncludesMiddle | unsplash-image-filler/scripts/auto_fill.js:435 | helper: a pattern put between two strings is included |
| Text.AsciiLowerConcat | unsplash-image-filler/scripts/unsplash_client.js:85-87 | helper: lower-casing distributes over concatenation |
| Text.OccursAfterInsert | unsplash-image-filler/scripts/auto_fill.js:427-440 | helper: an occurrence at or after the insertion point moves by the inserted length |
| Text.OccursBeforeInsert | unsplash-image-filler/scripts/auto_fill.js:427-440 | helper: an occurrence that ends before the insertion point stays where it is |
| Text.IncludesWithin | unsplash-image-filler/scripts/auto_fill.js:435 | an occurrence survives text being added on either side |
| Text.AbsentChar | unsplash-image-filler/scripts/auto_fill.js:435 | a pattern holding a character the text lacks is not included |
| Text.DigitChar | unsplash-image-filler/scripts/auto_fill.js:230 | helper: the digit character of a value below 10 |
| Text.Decimal | unsplash-image-filler/scripts/auto_fill.js:230 | `String(n)` of a count is a non-empty run of decimal digits, one digit exactly below 10 |
| Text.DigitsValue | unsplash-image-filler/scripts/auto_fill.js:230 | the definition of the value of a digit string, most significant digit first; `DecimalRoundTrip` shows it inverts `Decimal` |
| Text.DecimalRoundTrip | unsplash-image-filler/scripts/auto_fill.js:230 | reading the digits back gives the number |
| Text.DecimalInjective | unsplash-image-filler/scripts/unsplash_client.js:180 | different counts render differently |
| Hashing.CharUnits | unsplash-image-filler/scripts/auto_fill.js:106-107 | a character is one code unit in the Basic Multilingual Plane, otherwise a surrogate pair that encodes it |
| Hashing.CodeUnits | unsplash-image-filler/scripts/auto_fill.js:106 | a string has between one and two code units per character |
| Hashing.Utf16Length | unsplash-image-filler/scripts/auto_fill.js:208 | the definition of `.length`: the number of UTF-16 code units; `CodeUnits` bounds it between one and two per character |
| Hashing.HashUnits | unsplash-image-filler/scripts/auto_fill.js:107 | the hash always fits in 32 unsigned bits |
| Hashing.Hash | unsplash-image-filler/scripts/auto_fill.js:104-110 | `stableHash` of a string, the fold over its UTF-16 code units, is below 2^32; `HashIsPolynomialMod` and `StableHash` relate it to the polynomial and to the loop |
| Hashing.Polynomial | unsplash-image-filler/scripts/auto_fill.js:104-110 | the reference definition: the same polynomial in 31 over the integers, without wrap-around; `HashIsPolynomialMod` shows `Hash` is it modulo 2^32 |
| Hashing.ModOfMultiple | unsplash-image-filler/scripts/auto_fill.js:107 | helper: adding a multiple of 2^32 does not change the remainder |
| Hashing.HashIsPolynomialMod | unsplash-image-filler/scripts/auto_fill.js:104-110 | a `>>> 0` truncation at every step equals one truncation of the integer polynomial in 31 |
| Hashing.HashOfEmpty | unsplash-image-filler/scripts/auto_fill.js:105 | the empty string hashes to 0 |
| Hashing.StableHash | unsplash-image-filler/scripts/auto_fill.js:104-110 | the `charCodeAt` loop computes the fold `Hash` and stays below 2^32 |
| SectionSampler.TextToAnalyze | unsplash-image-filler/scripts/auto_fill.js:207 | the definition of the analysed text: the header, or `""` without one, then a space and the text (`section.header` or `""`, line 207); `IsEligible` and `EligibleMembers` test the length of its trim |
| SectionSampler.Filter | unsplash-image-filler/scripts/auto_fill.js:206-209 | a filter never lengthens the list |
| SectionSampler.FilterMembers | unsplash-image-filler/scripts/auto_fill.js:206-209 | the filter keeps exactly the elements that pass |
| SectionSampler.FilterConcat | unsplash-image-filler/scripts/auto_fill.js:206-209 | filtering distributes over concatenation, so the kept elements stay in their order |
| SectionSampler.FilterAll | unsplash-image-filler/scripts/auto_fill.js:206-209 | filtering a list whose elements all pass returns it unchanged |
| SectionSampler.Eligible | unsplash-image-filler/scripts/auto_fill.js:206-209 | the eligible list is no longer than the section list |
| SectionSampler.IsEligible | unsplash-image-filler/scripts/auto_fill.js:206-209 | the definition: the trimmed `header + " " + text` has at least 20 UTF-16 code units; `EligibleMembers` states the filter keeps exactly these sections |
| SectionSampler.EligibleMembers | unsplash-image-filler/scripts/auto_fill.js:206-209 | a section is eligible exactly when its trimmed `header + " " + text` has at least 20 code units |
| SectionSampler.EligibleOfConcat | unsplash-image-filler/scripts/auto_fill.js:206-209 | eligibility keeps the original order |
| SectionSampler.Min | unsplash-image-filler/scripts/auto_fill.js:222-225 | helper: `Math.min` |
| SectionSampler.Max | unsplash-image-filler/scripts/auto_fill.js:222-229 | helper: `Math.max` |
| SectionSampler.RoundDiv | unsplash-image-filler/scripts/auto_fill.js:222 | `Math.round(a / b)` is the nearest integer, with halves rounded up |
| SectionSampler.TargetCount | unsplash-image-filler/scripts/auto_fill.js:214-225 | between 1 and 5 targets, and never more than there are eligible sections |
| SectionSampler.TargetCountTable | unsplash-image-filler/scripts/auto_fill.js:214-225 | the count table at the edges of each range of `count` |
| SectionSampler.SkipEdges | unsplash-image-filler/scripts/auto_fill.js:227 | the definition `count >= 5 ? 1 : 0`; `StartBounds`, `PlanShape` and `TenEligibleSections` show no pick falls among the `skipEdges` sections at either end |
| SectionSampler.Span | unsplash-image-filler/scripts/auto_fill.js:228 | the definition `Math.max(1, count - skipEdges * 2)`; `Interval` divides it by the target count, and `LastStepFits` shows the last pick, `targetCount - 1` intervals past the start, still lands before `count - skipEdges` |
| SectionSampler.Interval | unsplash-image-filler/scripts/auto_fill.js:227-229 | the step between picks is at least 2 |
| SectionSampler.StartIndex | unsplash-image-filler/scripts/auto_fill.js:231-235 | the definition of the first index, `skipEdges + seed % interval`, reset to `skipEdges` past the end; `StartBounds` places it in `[skipEdges, count - skipEdges)`, less than one interval past `skipEdges` |
| SectionSampler.Walk | unsplash-image-filler/scripts/auto_fill.js:237-240 | the loop visits at most `want` indices, all in `[idx, limit)`, starting at `idx`; it visits none exactly when `idx >= limit` or nothing is wanted |
| SectionSampler.WalkLength | unsplash-image-filler/scripts/auto_fill.js:237-240 | the walk collects all `want` indices when its last step lands below the limit |
| SectionSampler.Stepped | unsplash-image-filler/scripts/auto_fill.js:237 | the definition: consecutive entries are exactly one step apart; `WalkSteps` states it of the walk |
| SectionSampler.WalkSteps | unsplash-image-filler/scripts/auto_fill.js:237 | consecutive visited indices are exactly one interval apart |
| SectionSampler.StartBounds | unsplash-image-filler/scripts/auto_fill.js:231-235 | the start lies in `[skipEdges, count - skipEdges)`, less than one interval past `skipEdges` |
| SectionSampler.LastStepFits | unsplash-image-filler/scripts/auto_fill.js:214-240 | the last of the `targetCount` picks still lands before the protected final section |
| SectionSampler.PlanShape | unsplash-image-filler/scripts/auto_fill.js:227-244 | for any seed: exactly `targetCount` indices, all in `[skipEdges, count - skipEdges)` and one interval apart; the fallback of lines 242-244 never fires |
| SectionSampler.PlanInRange | unsplash-image-filler/scripts/auto_fill.js:238 | every chosen index is within the eligible list |
| SectionSampler.Plan | unsplash-image-filler/scripts/auto_fill.js:227-247 | the definition of the chosen indices with the one-element fallback; `PlanShape` and `PlanInRange` state its properties |
| SectionSampler.SeedKey | unsplash-image-filler/scripts/auto_fill.js:230 | the definition of the seed string `${filePath}:${count}` |
| SectionSampler.SmartSelection | unsplash-image-filler/scripts/auto_fill.js:227-247 | the definition: the selection seeded by `stableHash` of the seed string; `SmartSelectionProperties` states its properties and `ChooseSmartParagraphSections` is proved to return it |
| SectionSampler.Selection | unsplash-image-filler/scripts/auto_fill.js:233-247 | the definition of the sections the plan for a given seed picks out of the eligible ones; `SelectionProperties` and `SelectionPicks` state its properties for every seed |
| SectionSampler.Pick | unsplash-image-filler/scripts/auto_fill.js:238 | the k-th picked section is the eligible one at the k-th index |
| SectionSampler.PickedFrom | unsplash-image-filler/scripts/auto_fill.js:238 | everything picked comes from the list it was picked from |
| SectionSampler.SelectionProperties | unsplash-image-filler/scripts/auto_fill.js:205-247 | for any seed: empty exactly when nothing is eligible; otherwise exactly `TargetCount` sections, at most 5, every one eligible and taken from the input |
| SectionSampler.SelectionPicks | unsplash-image-filler/scripts/auto_fill.js:237-240 | the k-th selected section is the eligible section at the k-th planned index |
| SectionSampler.SmartSelectionProperties | unsplash-image-filler/scripts/auto_fill.js:205-247 | the seeded selection is empty only when no section is eligible, holds at most 5 sections, and every one is eligible and taken from the input |
| SectionSampler.TenEligibleSections | unsplash-image-filler/scripts/auto_fill.js:214-240 | ten eligible sections give two picks four apart, never the first or the last, whatever the seed |
| SectionSampler.PickPointwise | unsplash-image-filler/scripts/auto_fill.js:238 | helper: a list that agrees with the picked sections at every position is the pick |
| SectionSampler.Steps | unsplash-image-filler/scripts/auto_fill.js:237 | helper: arithmetic for the last step of the walk |
| SectionSampler.PickCons | unsplash-image-filler/scripts/auto_fill.js:238 | picking distributes over a first index and the rest |
| SectionSampler.WalkEligible | unsplash-image-filler/scripts/auto_fill.js:233-240 | the `for` loop with its early `break` collects exactly the sections at the walk's indices |
| SectionSampler.ChooseSmartParagraphSections | unsplash-image-filler/scripts/auto_fill.js:205-247 | the method returns the reference selection `SmartSelection` |
| AccessKeys.IsSeparator | unsplash-image-filler/scripts/auto_fill.js:64 | the definition of the character class `[,\n;]`; `Split` and `Separators` show no piece holds one and only these separate pieces |
| AccessKeys.NoSeparator | unsplash-image-filler/scripts/auto_fill.js:64 | the definition: no character is a separator; `Split` ensures it of every piece |
| AccessKeys.Split | unsplash-image-filler/scripts/auto_fill.js:64 | splitting on `,` `;` and newline gives at least one piece, and no piece holds a separator |
| AccessKeys.Separators | unsplash-image-filler/scripts/auto_fill.js:64 | lists only separator characters |
| AccessKeys.SplitCount | unsplash-image-filler/scripts/auto_fill.js:64 | there is one more piece than there are separators |
| AccessKeys.Join | unsplash-image-filler/scripts/auto_fill.js:64 | the reference definition: pieces interleaved with separators; `SplitJoin` shows it undoes `Split` |
| AccessKeys.SplitJoin | unsplash-image-filler/scripts/auto_fill.js:64 | joining the pieces back with their separators gives the input |
| AccessKeys.KeysOf | unsplash-image-filler/scripts/auto_fill.js:65-66 | every kept key is non-empty, trimmed, and the trim of some piece; every piece with a non-empty trim is kept |
| AccessKeys.IsAccessKey | unsplash-image-filler/scripts/auto_fill.js:65-66 | the definition of a kept key: non-empty, trimmed and free of separators; `KeysOf`, `ParseAccessKeys` and `OriginKeys` ensure every key they give is one |
| AccessKeys.ParseAccessKeys | unsplash-image-filler/scripts/auto_fill.js:57-67 | a missing value gives no keys; every key is non-empty, trimmed and free of separators |
| AccessKeys.ParseAll | unsplash-image-filler/scripts/auto_fill.js:59-61 | an array's items parse to valid keys |
| AccessKeys.ParseTextMembers | unsplash-image-filler/scripts/auto_fill.js:63-66 | a string yields exactly the non-empty trims of its pieces |
| AccessKeys.ParseAllConcat | unsplash-image-filler/scripts/auto_fill.js:60 | `flatMap` distributes over concatenated item lists |
| AccessKeys.NoDuplicates | unsplash-image-filler/scripts/auto_fill.js:70 | the definition: no element occurs twice; `Dedupe`, `ResolveAccessKeys` and `DedupeOfDistinct` state it of `[...new Set(keys)]` |
| AccessKeys.FirstIndex | unsplash-image-filler/scripts/auto_fill.js:70 | returns the first position of an element |
| AccessKeys.Dedupe | unsplash-image-filler/scripts/auto_fill.js:70 | `[...new Set(xs)]` has no duplicates, has the same members as the input, and is no longer |
| AccessKeys.DedupeOrder | unsplash-image-filler/scripts/auto_fill.js:70 | the distinct keys appear in the order of their first occurrences |
| AccessKeys.FirstIndexPrefix | unsplash-image-filler/scripts/auto_fill.js:70 | appending does not move the first occurrence of an element already present |
| AccessKeys.FirstIndexLast | unsplash-image-filler/scripts/auto_fill.js:70 | a new element appended is first found at the end |
| AccessKeys.DedupeOfDistinct | unsplash-image-filler/scripts/auto_fill.js:70 | a list without duplicates is its own de-duplication |
| AccessKeys.OriginKeys | unsplash-image-filler/scripts/auto_fill.js:73-88 | one origin's keys (plural setting, then singular) are all valid keys |
| AccessKeys.ResolveAccessKeys | unsplash-image-filler/scripts/auto_fill.js:69-90 | no duplicates; empty exactly when all three origins are empty; the members are those of the first non-empty origin among command line, environment and configuration file |
| AccessKeys.CliOverrides | unsplash-image-filler/scripts/auto_fill.js:72-77 | once the command line has keys, environment and configuration file do not matter |
| AccessKeys.EnvOverridesConfig | unsplash-image-filler/scripts/auto_fill.js:79-83 | without command-line keys, environment keys shadow the configuration file |
| ArticleModes.ModeName | unsplash-image-filler/scripts/auto_fill.js:147-155 | the definition of the string each mode stands for; `NameRecognised`, `NameIsValue` and `NormalizeIdempotent` show `NormalizeArticleMode` maps it back to its mode. The recognised words are the constants `SectionWords` (line 147) and `ParagraphWords` (line 150) |
| ArticleModes.ModeValue | unsplash-image-filler/scripts/auto_fill.js:145 | the definition of the trimmed, lower-cased attribute value, `""` when it is missing; `NormalizeArticleMode` is stated in terms of it, and `NameIsValue` shows a mode name is its own value |
| ArticleModes.WordLengths | unsplash-image-filler/scripts/auto_fill.js:147-153 | helper: the recognised words have lengths that tell the modes apart |
| ArticleModes.NormalizeArticleMode | unsplash-image-filler/scripts/auto_fill.js:144-155 | `paragraphs` exactly for the paragraph words, `auto` exactly for "auto", `sections` for everything else, including a missing or blank value |
| ArticleModes.NormalizeIdempotent | unsplash-image-filler/scripts/auto_fill.js:144-155 | normalising the name of a normalised mode gives the same mode |
| ArticleModes.NameRecognised | unsplash-image-filler/scripts/auto_fill.js:144-155 | each mode's own name normalises to that mode |
| ArticleModes.NameIsValue | unsplash-image-filler/scripts/auto_fill.js:145 | a mode name is already trimmed and lower-case |
| ArticleModes.ResolveMode | unsplash-image-filler/scripts/auto_fill.js:258-263 | the resolved mode is never `auto`; an explicit mode is kept; `auto` becomes `sections` exactly when the article has a heading child |
| ArticleModes.UseSmartDensity | unsplash-image-filler/scripts/auto_fill.js:270 | the definition `mode === "auto" && resolvedMode === "paragraphs"`; `SamplingOnlyForAuto` shows it holds exactly for `auto` articles without headings |
| ArticleModes.SectionsToProcess | unsplash-image-filler/scripts/auto_fill.js:265-273 | `sections` uses the heading cut and `paragraphs` the paragraph cut; `auto` with headings uses the heading cut; smart density processes exactly `SmartSelection` of the paragraph sections, at most 5 eligible ones |
| ArticleModes.SamplingOnlyForAuto | unsplash-image-filler/scripts/auto_fill.js:270-273 | smart density applies exactly to `auto` articles without headings; otherwise a builder's full list is processed |
| ArticleModes.SectionsQueried | unsplash-image-filler/scripts/auto_fill.js:275-279 | the sections the length check keeps, for which a query is built, are exactly the eligible ones among those to process; the dry run and the processed-next-image check may still skip the search |
| ArticleModes.EligibleOfEligible | unsplash-image-filler/scripts/auto_fill.js:276-277 | the length check keeps a list of eligible sections whole |
| ArticleModes.SampledSectionsAllQueried | unsplash-image-filler/scripts/auto_fill.js:270-277 | with smart density, the length check skips none of the sampled sections |
| Placeholders.IdAttr | unsplash-image-filler/scripts/auto_fill.js:428-431 | helper: the text ` data-unsplash-id="<id>"` inserted after the tag name |
| Placeholders.SrcAttr | unsplash-image-filler/scripts/auto_fill.js:422-424 | helper: the text `src="<url>"` |
| Placeholders.IsImgTag | unsplash-image-filler/scripts/auto_fill.js:374-375 | the definition of what each `imgRegex` match starts with: `<img` in any letter case and one more character; `WellFormed` demands it of every match, and `RewriteTag`, `Rewritten` and `HeadLeavesNoRoom` are stated for such tags |
| Placeholders.IsQuote | unsplash-image-filler/scripts/auto_fill.js:421 | the definition of the character class `["']`; `QuoteFrom` finds the first one |
| Placeholders.QuoteFrom | unsplash-image-filler/scripts/auto_fill.js:421 | finds the first quote at or after `k`, or None when there is none |
| Placeholders.SrcMatchAt | unsplash-image-filler/scripts/auto_fill.js:421 | the definition of a match of `/src=["'][^"']*["']/` at a position: `src=`, a quote, non-quotes and a closing quote; `FindSrcFrom` and `FindSrc` return the leftmost such position, and `UpperCaseTagNeverMarked` shows there is none in the upper-case placeholder |
| Placeholders.FindSrcFrom | unsplash-image-filler/scripts/auto_fill.js:421-422 | finds the leftmost match of `src=["'][^"']*["']` at or after `i`, ending after its closing quote |
| Placeholders.FindSrc | unsplash-image-filler/scripts/auto_fill.js:421-422 | finds the leftmost `src` match, or none when it does not occur |
| Placeholders.AddSrcAsWritten | unsplash-image-filler/scripts/auto_fill.js:418-425 | the `src` step as written: a tag with neither a `src` match nor a lower-case `<img` is returned unchanged |
| Placeholders.RewriteTagAsWritten | unsplash-image-filler/scripts/auto_fill.js:418-440 | the whole rewrite as written: a tag with neither a `src` match nor a lower-case `<img` is returned unchanged, so it gets no marker |
| Placeholders.UpperCaseTagNeverMarked | unsplash-image-filler/scripts/auto_fill.js:418-440 | as written, the upper-case placeholder `<IMG data-unsplash-auto>` comes back unchanged, with no processed marker |
| Placeholders.AfterName | unsplash-image-filler/scripts/auto_fill.js:424-439 | inserting after the tag name preserves the name and adds exactly the attribute's length |
| Placeholders.AddSrc | unsplash-image-filler/scripts/auto_fill.js:421-425 | still an `img` tag with the same name, now holding `src="url"` |
| Placeholders.RewriteTag | unsplash-image-filler/scripts/auto_fill.js:418-440 | the corrected rewrite preserves the tag name |
| Placeholders.RewriteTagMarks | unsplash-image-filler/scripts/auto_fill.js:434-440 | the rewritten tag always carries `data-unsplash-processed`, so line 384 skips it on the next run |
| Placeholders.RewriteTagSetsSrc | unsplash-image-filler/scripts/auto_fill.js:420-425 | the rewritten tag holds `src="url"` for the new photo |
| Placeholders.RewriteTagHasId | unsplash-image-filler/scripts/auto_fill.js:427-432 | the rewritten tag has a `data-unsplash-id` |
| Placeholders.RewriteTagUsesPhotoId | unsplash-image-filler/scripts/auto_fill.js:427-432 | the id added to a tag without one is the photo's id |
| Placeholders.IdAdded | unsplash-image-filler/scripts/auto_fill.js:428-431 | inserting the id adds both the attribute and its name |
| Placeholders.MarkAdded | unsplash-image-filler/scripts/auto_fill.js:436-439 | inserting the marker adds it |
| Placeholders.HeadLeavesNoRoom | unsplash-image-filler/scripts/auto_fill.js:421-440 | a `src`, `data-` or space pattern cannot start inside the tag name |
| Placeholders.KeptAfterName | unsplash-image-filler/scripts/auto_fill.js:427-440 | an earlier insertion survives the later insertions after the tag name |
| Placeholders.AsWrittenAgreesOnLowerCase | unsplash-image-filler/scripts/auto_fill.js:418-440 | for tags that open with a lower-case `<img`, the code as written and the corrected rewrite agree, and both add the marker |
| Placeholders.AddSrcAgrees | unsplash-image-filler/scripts/auto_fill.js:421-425 | for a lower-case tag, the `src` step as written equals the corrected one |
| Placeholders.ReplaceAtHead | unsplash-image-filler/scripts/auto_fill.js:424 | `replace("<img", "<img" + attr)` on a tag opening with `<img` inserts right after the name |
| Placeholders.Rewritten | unsplash-image-filler/scripts/auto_fill.js:418-440 | selects the rewrite as written or the corrected one, so the pass can be stated for both |
| Placeholders.LowerCaseTags | unsplash-image-filler/scripts/auto_fill.js:380 | helper: every match opens with the lower-case `<img` |
| Placeholders.ReplacementFor | unsplash-image-filler/scripts/auto_fill.js:383-452 | gives a replacement exactly when the tag is unmarked, the run is not dry, and the first photo has a non-empty URL and a `links` object (without one, reading `photo.links.download_location` at line 414 throws and the catch of lines 449-452 pushes nothing); the replacement spans the match and holds the chosen rewrite of the tag, which carries the marker with the corrected rewrite, and with the rewrite as written only when the tag opens with a lower-case `<img` |
| Placeholders.TagEnd | unsplash-image-filler/scripts/auto_fill.js:444 | helper: `match.index + fullTag.length` |
| Placeholders.WellFormed | unsplash-image-filler/scripts/auto_fill.js:374-381 | the definition of the matches `imgRegex.exec` delivers: each is the content at its index and opens an `img` tag, and each ends before the next starts; `CollectedDisjoint` derives from it that the collected ranges are disjoint, and `WellFormedPrefix` keeps it on prefixes |
| Placeholders.Collected | unsplash-image-filler/scripts/auto_fill.js:380-453 | at most one replacement per match and none on a dry run; every one is marked with the corrected rewrite, and with the rewrite as written when all matches open with a lower-case `<img` |
| Placeholders.CollectReplacements | unsplash-image-filler/scripts/auto_fill.js:380-453 | the match loop, with either rewrite, builds exactly the list `Collected` |
| Placeholders.Disjoint | unsplash-image-filler/scripts/auto_fill.js:442-446 | the definition: the ranges are ascending, non-empty, non-overlapping and within the content; `CollectedDisjoint` shows the match loop produces such ranges |
| Placeholders.ResumesAt | unsplash-image-filler/scripts/auto_fill.js:458-463 | helper: where a splice may resume |
| Placeholders.SpliceAt | unsplash-image-filler/scripts/auto_fill.js:458-463 | the reference definition: the content from `pos` with the ranges from index `k` replaced, read left to right; `SpliceKeepsPrefix`, `SpliceKeepsSuffix` and `SpliceLoopStep` state its properties |
| Placeholders.Splice | unsplash-image-filler/scripts/auto_fill.js:456-463 | the reference definition: the content with every range replaced, read left to right; `ApplyReplacements` shows the reverse-order loop computes it, and `SpliceIdentity`, `SpliceLength` and `SpliceSuffix` state its properties |
| Placeholders.LastEnd | unsplash-image-filler/scripts/auto_fill.js:458-463 | helper: the end of the last replaced range |
| Placeholders.SpliceKeepsPrefix | unsplash-image-filler/scripts/auto_fill.js:456-463 | the text before the first replaced range is kept |
| Placeholders.SpliceKeepsSuffix | unsplash-image-filler/scripts/auto_fill.js:456-463 | the text after the last replaced range is kept |
| Placeholders.ByStartDescending | unsplash-image-filler/scripts/auto_fill.js:457 | the sort keeps the number of replacements |
| Placeholders.ByStartDescendingAt | unsplash-image-filler/scripts/auto_fill.js:457 | for ranges delivered in ascending order, the sorted list is their reversal |
| Placeholders.ByStartDescendingPermutes | unsplash-image-filler/scripts/auto_fill.js:457 | the sort is a permutation |
| Placeholders.SortedDescending | unsplash-image-filler/scripts/auto_fill.js:457 | the sorted starts strictly decrease |
| Placeholders.SpliceLoopStep | unsplash-image-filler/scripts/auto_fill.js:458-463 | one splice turn keeps the content before the current range original and everything after it spliced |
| Placeholders.Lim | unsplash-image-filler/scripts/auto_fill.js:458-463 | helper: where the splice resumes after the first `k` ranges |
| Placeholders.ApplyReplacements | unsplash-image-filler/scripts/auto_fill.js:456-463 | splicing in reverse start order equals the left-to-right splice `Splice`: no index moves before it is used |
| Placeholders.SpliceIdentity | unsplash-image-filler/scripts/auto_fill.js:458-463 | replacing every range by its own text changes nothing |
| Placeholders.Growth | unsplash-image-filler/scripts/auto_fill.js:458-463 | the definition: how much longer the new texts are than the ranges they replace; `SpliceLength` shows the content grows by exactly that |
| Placeholders.SpliceLength | unsplash-image-filler/scripts/auto_fill.js:458-463 | the new length is the old one plus the growth of every replaced range |
| Placeholders.CollectedDisjoint | unsplash-image-filler/scripts/auto_fill.js:380-446 | the collected replacements are ascending, non-empty, disjoint and within the content |
| Placeholders.WellFormedPrefix | unsplash-image-filler/scripts/auto_fill.js:380 | a prefix of the matches keeps their properties |
| Placeholders.DisjointSnoc | unsplash-image-filler/scripts/auto_fill.js:442-446 | pushing a later range keeps the list disjoint |
| Placeholders.PlaceholderPass | unsplash-image-filler/scripts/auto_fill.js:455-464 | the content after the pass: the collected replacements spliced in; with nothing collected it is the content unchanged |
| Placeholders.PassesAgreeOnLowerCase | unsplash-image-filler/scripts/auto_fill.js:380-453 | when every match opens with a lower-case `<img`, the pass as written and the corrected pass collect the same replacements |
| Placeholders.AsWrittenPassKeepsUpperCase | unsplash-image-filler/scripts/auto_fill.js:380-464 | a file holding only `<IMG data-unsplash-auto>` with a photo found: as written, a replacement holding the unchanged tag is pushed and the file comes out unchanged; the corrected pass writes the marker into it |
| Placeholders.UpperCaseSetup | unsplash-image-filler/scripts/auto_fill.js:380-384 | helper: the upper-case placeholder is a well-formed, unmarked match |
| Placeholders.SinglePass | unsplash-image-filler/scripts/auto_fill.js:380-464 | a file that is one unmarked placeholder, with a photo found that has a URL and a `links` object, becomes the chosen rewrite of that tag |
| Placeholders.SingleCollected | unsplash-image-filler/scripts/auto_fill.js:407-447 | helper: the one placeholder of such a file contributes its rewritten tag over the whole file |
| Placeholders.SingleSplice | unsplash-image-filler/scripts/auto_fill.js:458-463 | helper: a single range covering the whole content is replaced by its new text |
| Placeholders.MissingLinksLeavesTag | unsplash-image-filler/scripts/auto_fill.js:410-452 | a photo with a URL but no `links` object leaves a one-placeholder file unchanged: the TypeError at line 414 is caught before anything is pushed |
| Placeholders.DryRunUnchanged | unsplash-image-filler/scripts/auto_fill.js:402-405 | a dry run leaves the content unchanged, with either rewrite |
| Placeholders.PassKeepsPrefix | unsplash-image-filler/scripts/auto_fill.js:455-464 | with either rewrite, the content before the first rewritten tag is unchanged |
| Placeholders.PassKeepsSuffix | unsplash-image-filler/scripts/auto_fill.js:455-464 | with either rewrite, the content after the last rewritten tag is unchanged |
| Placeholders.SpliceSuffix | unsplash-image-filler/scripts/auto_fill.js:458-463 | the splice ends with the content after the last range |
| RetryPipeline.IsOk | unsplash-image-filler/scripts/unsplash_client.js:188 | the definition of `response.ok`, a status from 200 to 299; `SearchResult` shows a search succeeds only on such a response |
| RetryPipeline.NonEmpty | unsplash-image-filler/scripts/unsplash_client.js:84 | `filter(Boolean)` keeps exactly the non-empty messages |
| RetryPipeline.JoinSpaced | unsplash-image-filler/scripts/unsplash_client.js:86 | the definition of `.join(" ")`; `JoinSpacedHolds` shows every part is a contiguous piece of the result, and `SplitPhraseSignalsQuota` that a phrase can span two parts |
| RetryPipeline.JoinSpacedHolds | unsplash-image-filler/scripts/unsplash_client.js:85 | every message is a contiguous piece of the joined text |
| RetryPipeline.MessageList | unsplash-image-filler/scripts/unsplash_client.js:81-84 | the definition of the messages: a non-empty `error` first, then the non-empty items of `errors`; none when the body is not JSON |
| RetryPipeline.Messages | unsplash-image-filler/scripts/unsplash_client.js:81-87 | the definition of the searched text: the messages joined by single spaces and lower-cased |
| RetryPipeline.MentionsQuota | unsplash-image-filler/scripts/unsplash_client.js:89-93 | the definition of the three `includes` tests for `rate limit`, `quota` and `limit exceeded`; `MessageSignalsQuota` and `SplitPhraseSignalsQuota` give it its meaning for the messages, `NoQuotaWordAlone` when it fails |
| RetryPipeline.IsQuotaLimited | unsplash-image-filler/scripts/unsplash_client.js:62-94 | the definition of `_isQuotaLimited`; its partners are the lemmas below and `DecisionTable` |
| RetryPipeline.SplitPhraseSignalsQuota | unsplash-image-filler/scripts/unsplash_client.js:81-93 | the messages are joined before the search: `errors: ["Rate", "limit"]` makes a 401 or 403 quota-limited although neither item holds a quota phrase |
| RetryPipeline.NoQuotaWordAlone | unsplash-image-filler/scripts/unsplash_client.js:89-93 | helper: a message without a space or a `q` mentions no quota phrase |
| RetryPipeline.UnparsedBodyNeedsHeader | unsplash-image-filler/scripts/unsplash_client.js:71-93 | a 401 or 403 whose body is not JSON is quota-limited exactly when `x-ratelimit-remaining` is `"0"` |
| RetryPipeline.MessageSignalsQuota | unsplash-image-filler/scripts/unsplash_client.js:78-93 | a 401 or 403 whose messages mention a quota phrase, in any ASCII letter case, is quota-limited |
| RetryPipeline.ErrorFieldListed | unsplash-image-filler/scripts/unsplash_client.js:79 | a non-empty `error` field is one of the messages searched |
| RetryPipeline.ErrorsItemListed | unsplash-image-filler/scripts/unsplash_client.js:80 | a non-empty item of `errors` is one of the messages searched |
| RetryPipeline.TimerDelay | unsplash-image-filler/scripts/unsplash_client.js:7 | a timer waits the requested delay when it is between 1 and 2^31-1 ms, and 1 ms otherwise |
| RetryPipeline.Pow2 | unsplash-image-filler/scripts/unsplash_client.js:136 | helper: a power of two is positive |
| RetryPipeline.Pow2Grows | unsplash-image-filler/scripts/unsplash_client.js:136 | helper: powers of two grow with the exponent |
| RetryPipeline.Pow2Table | unsplash-image-filler/scripts/unsplash_client.js:136 | helper: the powers at the edge of the timer range |
| RetryPipeline.BackoffDelay | unsplash-image-filler/scripts/unsplash_client.js:136-148 | the definition of `Math.pow(2, retryCount + 1) * 1000` as a timer waits it; `BackoffSchedule` states its values |
| RetryPipeline.BackoffSchedule | unsplash-image-filler/scripts/unsplash_client.js:148 | the backoff waits 2 s, then 4 s, doubling while the delay fits a timer, and 1 ms from retry 21 on |
| RetryPipeline.IsDigit | unsplash-image-filler/scripts/unsplash_client.js:135 | the definition of the character class `[0-9]` `parseInt` reads |
| RetryPipeline.LeadingDigits | unsplash-image-filler/scripts/unsplash_client.js:135 | gives the longest prefix of decimal digits |
| RetryPipeline.ParseInt | unsplash-image-filler/scripts/unsplash_client.js:135 | `parseInt` gives NaN exactly when no digit follows the white space and the optional sign |
| RetryPipeline.Unsigned | unsplash-image-filler/scripts/unsplash_client.js:135 | the definition: the text after an optional `+` or `-`; `ParseInt` is NaN exactly when no digit follows it |
| RetryPipeline.SignedValue | unsplash-image-filler/scripts/unsplash_client.js:135 | a signed value is absent exactly when no digit follows the sign |
| RetryPipeline.ParseIntOfDecimal | unsplash-image-filler/scripts/unsplash_client.js:135 | `parseInt` reads back the decimal rendering of any count, also after leading white space |
| RetryPipeline.DecimalDigits | unsplash-image-filler/scripts/unsplash_client.js:135 | a rendering is all digits, starting with a digit |
| RetryPipeline.ParsePositive | unsplash-image-filler/scripts/unsplash_client.js:135 | white space, then a digit run, reads as the run's value |
| RetryPipeline.ParseTrimmedDigits | unsplash-image-filler/scripts/unsplash_client.js:135 | a string that is a digit run after its white space reads as that run's value |
| RetryPipeline.ParseNegative | unsplash-image-filler/scripts/unsplash_client.js:135 | a minus sign, then a digit run, reads as the negated value |
| RetryPipeline.ParseTrimmedNegative | unsplash-image-filler/scripts/unsplash_client.js:135 | the same after leading white space |
| RetryPipeline.MinusSign | unsplash-image-filler/scripts/unsplash_client.js:135 | helper: the sign is stripped from a negative number |
| RetryPipeline.NegativeValue | unsplash-image-filler/scripts/unsplash_client.js:135 | helper: a negative digit run's signed value |
| RetryPipeline.LeadingDigitsAll | unsplash-image-filler/scripts/unsplash_client.js:135 | helper: a digit run is its own longest digit prefix |
| RetryPipeline.TrimStartAfterWhite | unsplash-image-filler/scripts/unsplash_client.js:135 | helper: leading white space is skipped |
| RetryPipeline.QuotaWait | unsplash-image-filler/scripts/unsplash_client.js:133-136 | without a `retry-after`, the wait is `2^(retry+1)` seconds |
| RetryPipeline.RetryAfterHonoured | unsplash-image-filler/scripts/unsplash_client.js:133-141 | a `retry-after` of n seconds within the timer range waits exactly n seconds |
| RetryPipeline.PaceWait | unsplash-image-filler/scripts/unsplash_client.js:99-108 | no wait once `requestDelay` has passed since the last request |
| RetryPipeline.PacingSpacing | unsplash-image-filler/scripts/unsplash_client.js:99-108 | consecutive requests are at least `requestDelay` apart, and exactly that much after a wait |
| RetryPipeline.AfterSend | unsplash-image-filler/scripts/unsplash_client.js:114-117 | sending keeps the cursor, counts the request, and records the paced send time as the last request time |
| RetryPipeline.Decide | unsplash-image-filler/scripts/unsplash_client.js:119-175 | each decision to go on lowers (maxRetries - retry, keys - 1 - switches) in lexicographic order; only a key switch moves the cursor, one step round; a wait counts a retry |
| RetryPipeline.DecisionTable | unsplash-image-filler/scripts/unsplash_client.js:119-175 | case by case: rotate while keys remain; when all keys are limited, throw once the retries are spent, else wait and restart the round; retry server and transient network errors with backoff; otherwise return or rethrow |
| RetryPipeline.IsRetryableCode | unsplash-image-filler/scripts/unsplash_client.js:160-163 | the definition: the error code is one of `ECONNRESET`, `ETIMEDOUT`, `ENOTFOUND` |
| RetryPipeline.Run | unsplash-image-filler/scripts/unsplash_client.js:113-176 | a run begins with a paced request at the cursor and leaves the cursor inside the pool |
| RetryPipeline.Prepend | unsplash-image-filler/scripts/unsplash_client.js:113-176 | helper: a trace with one event in front |
| RetryPipeline.WaitThen | unsplash-image-filler/scripts/unsplash_client.js:141-143 | helper: a trace with the optional backoff wait in front |
| RetryPipeline.Keys | unsplash-image-filler/scripts/unsplash_client.js:117 | a trace has no more requests than events |
| RetryPipeline.Waits | unsplash-image-filler/scripts/unsplash_client.js:141 | the definition of the backoff waits of a trace, in order; `AllQuotaExhausts`, `ServerErrorsRetried` and `NetworkErrorsRetried` state them |
| RetryPipeline.EventsPrepend | unsplash-image-filler/scripts/unsplash_client.js:117 | requests and waits of a trace split over its first event |
| RetryPipeline.RunStep | unsplash-image-filler/scripts/unsplash_client.js:113-176 | one recursive call, in terms of requests and waits |
| RetryPipeline.EventsOf | unsplash-image-filler/scripts/unsplash_client.js:113-176 | the requests and waits of a request followed by an optional wait |
| RetryPipeline.RoundsLeft | unsplash-image-filler/scripts/unsplash_client.js:127 | the definition of the backoff rounds left after `retryCount`; `RequestsBounded` and `AllQuotaExhausts` are stated with it |
| RetryPipeline.Capacity | unsplash-image-filler/scripts/unsplash_client.js:120-144 | `rounds` times the number of keys |
| RetryPipeline.Budget | unsplash-image-filler/scripts/unsplash_client.js:120-144 | the definition of the requests a run may still send: one per key left in this round and one per key in each later round; `RequestsBounded` shows a run sends no more, and `AllQuotaExhausts` that an all-quota run sends exactly that many |
| RetryPipeline.Schedule | unsplash-image-filler/scripts/unsplash_client.js:128-141 | one backoff wait per remaining round |
| RetryPipeline.RequestsBounded | unsplash-image-filler/scripts/unsplash_client.js:113-176 | a run sends at most one request per key left in this round plus one per key in each later round |
| RetryPipeline.RequestsBoundedFromStart | unsplash-image-filler/scripts/unsplash_client.js:113-176 | a call sends at most `(maxRetries + 1) * keys` requests |
| RetryPipeline.AlwaysQuota | unsplash-image-filler/scripts/unsplash_client.js:120-144 | helper: a server whose every answer is quota-limited without `retry-after` |
| RetryPipeline.AllQuotaExhausts | unsplash-image-filler/scripts/unsplash_client.js:120-144 | with every key quota-limited, the run sends its whole budget and waits the exponential schedule, then fails with the quota error |
| RetryPipeline.QuotaRoundVisitsKeys | unsplash-image-filler/scripts/unsplash_client.js:122-125 | rotation before backoff: a round's requests go to the keys in turn from the cursor |
| RetryPipeline.QuotaSwitchStep | unsplash-image-filler/scripts/unsplash_client.js:120-125 | helper: with every key limited and keys left in the round, a run is its request followed by the run from the next key |
| RetryPipeline.ShiftedTrace | unsplash-image-filler/scripts/unsplash_client.js:42-52 | helper: the `j`-th event of a trace that starts one key earlier is at the key `j` steps round |
| RetryPipeline.QuotaRoundThenWait | unsplash-image-filler/scripts/unsplash_client.js:122-141 | the first backoff wait follows the request with the last key of the round |
| RetryPipeline.StepRound | unsplash-image-filler/scripts/unsplash_client.js:42-52 | moving the cursor one step j times is moving it j steps |
| RetryPipeline.ModBelow | unsplash-image-filler/scripts/unsplash_client.js:50 | helper: an index in range is its own remainder |
| RetryPipeline.ModShift | unsplash-image-filler/scripts/unsplash_client.js:50 | helper: a full turn round the pool returns to the same key |
| RetryPipeline.SameKey | unsplash-image-filler/scripts/unsplash_client.js:154 | the definition: every request of a trace went to one key; `ServerErrorsRetried` and `NetworkErrorsRetried` state it |
| RetryPipeline.SameKeyCons | unsplash-image-filler/scripts/unsplash_client.js:147-155 | adding a request to the same key keeps the trace on one key |
| RetryPipeline.AlwaysServerError | unsplash-image-filler/scripts/unsplash_client.js:147-157 | helper: a server whose every answer has a status of 500 or more |
| RetryPipeline.AlwaysTransient | unsplash-image-filler/scripts/unsplash_client.js:158-175 | helper: a server whose every request is rejected with a retryable error code |
| RetryPipeline.ServerErrorStep | unsplash-image-filler/scripts/unsplash_client.js:147-157 | a server error is never quota-limited: it is retried after the backoff on the same key while retries are left, then returned |
| RetryPipeline.ServerErrorsRetried | unsplash-image-filler/scripts/unsplash_client.js:147-157 | server errors are retried on the same key with the exponential waits, then the last response is returned |
| RetryPipeline.NetworkErrorsRetried | unsplash-image-filler/scripts/unsplash_client.js:158-175 | retryable network errors are retried on the same key with the exponential waits, then rethrown |
| RetryPipeline.ReturnedAtOnce | unsplash-image-filler/scripts/unsplash_client.js:157 | any other response is returned after one request |
| RetryPipeline.AuthFailureReturned | unsplash-image-filler/scripts/unsplash_client.js:66-94 | a 401 or 403 without a quota signal is neither retried nor rotated round: it is returned after one request |
| RetryPipeline.ErrorRethrown | unsplash-image-filler/scripts/unsplash_client.js:174 | other errors, and retryable ones once the retries are spent, are rethrown after one request |
| Unsplash.NormalizeAccessKeys | unsplash-image-filler/scripts/unsplash_client.js:33-36 | the pool has no duplicates, and every key in it is non-empty and trimmed |
| Unsplash.NormalizeMembers | unsplash-image-filler/scripts/unsplash_client.js:33-36 | the pool holds exactly the non-empty trims of the input, and is empty exactly when every input key is blank |
| Unsplash.NormalizeKeepsOrder | unsplash-image-filler/scripts/unsplash_client.js:35 | the pool keeps the order of first occurrence |
| Unsplash.NormalizeIdempotent | unsplash-image-filler/scripts/unsplash_client.js:33-36 | normalising a normalised pool changes nothing |
| Unsplash.CleanPoolFixed | unsplash-image-filler/scripts/unsplash_client.js:33-36 | a clean pool without duplicates is a fixed point of normalisation |
| Unsplash.KeysOfClean | unsplash-image-filler/scripts/unsplash_client.js:35 | trimming and filtering keys that are already clean keeps them all |
| Unsplash.StartIndex | unsplash-image-filler/scripts/unsplash_client.js:17 | `Math.floor(random * n)` is in range and is the floor |
| Unsplash.AfterLastColon | unsplash-image-filler/scripts/unsplash_client.js:180 | helper: the number of characters after the last `:` |
| Unsplash.AfterLastColonOf | unsplash-image-filler/scripts/unsplash_client.js:180 | the page size's digits are exactly what follows the last colon |
| Unsplash.CacheKey | unsplash-image-filler/scripts/unsplash_client.js:180 | the definition of the cache key `${query}:${perPage}`; `CacheKeyInjective` shows no two searches share one |
| Unsplash.CacheKeyInjective | unsplash-image-filler/scripts/unsplash_client.js:180 | two searches share a cache key only when query and page size are both equal |
| Unsplash.SearchResult | unsplash-image-filler/scripts/unsplash_client.js:185-200 | success exactly for an `ok` response with a JSON body, and then the result is its `results`; a non-`ok` response fails with its status |
| Unsplash.Resumes | unsplash-image-filler/scripts/unsplash_client.js:113-176 | the loop invariant of `FetchWithRetry`: the whole run is the events so far followed by the `Run` from the current state; `StepResumes` shows each turn keeps it |
| Unsplash.Step | unsplash-image-filler/scripts/unsplash_client.js:113-176 | the definition of one body of `_fetchWithRetry` as `Decide` describes it: whether it stops, with which result, the events it adds and the next state and counters; `Attempt` is proved to do it |
| Unsplash.StepResumes | unsplash-image-filler/scripts/unsplash_client.js:113-176 | one loop turn either ends the run where `Run` ends, or resumes it with lexicographically smaller counters |
| Unsplash.UnsplashClient.Valid | unsplash-image-filler/scripts/unsplash_client.js:10-17 | the class invariant: a non-empty, clean pool without duplicates and a cursor inside it; the constructor and `Create` establish it, and every method keeps it |
| Unsplash.UnsplashClient.constructor | unsplash-image-filler/scripts/unsplash_client.js:10-31 | a valid client: the normalised pool, the cursor at the start index, the given or default request delay (200) and retries (3), no request yet and an empty cache |
| Unsplash.UnsplashClient.Create | unsplash-image-filler/scripts/unsplash_client.js:10-31 | throws "At least one Unsplash access key is required." exactly when the normalised pool is empty; otherwise a fresh valid client whose cursor is `Math.floor(random * n)`, with the given or default request delay (200) and retries (3), no request yet and an empty cache |
| Unsplash.UnsplashClient.CurrentAccessKey | unsplash-image-filler/scripts/unsplash_client.js:38-40 | the current key is a clean key from the pool |
| Unsplash.UnsplashClient.RotateToNextKey | unsplash-image-filler/scripts/unsplash_client.js:42-52 | rotates exactly when the pool has more than one key, moving the cursor one place round; nothing else changes |
| Unsplash.UnsplashClient.EnforceRateLimit | unsplash-image-filler/scripts/unsplash_client.js:99-108 | sends after the pacing wait and records that time as the last request |
| Unsplash.UnsplashClient.Attempt | unsplash-image-filler/scripts/unsplash_client.js:113-176 | one body of `_fetchWithRetry` does what `Decide` says about its outcome (`Step`) |
| Unsplash.UnsplashClient.FetchWithRetry | unsplash-image-filler/scripts/unsplash_client.js:113-176 | the loop over the two counters has the result, requests, waits, final cursor and time of `Run`, and leaves the cache alone |
| Unsplash.UnsplashClient.SearchPhotos | unsplash-image-filler/scripts/unsplash_client.js:178-201 | a cache hit is answered without a request and with nothing changed; a miss runs the pipeline and caches the results of a successful response only |
| Unsplash.UnsplashClient.TrackDownload | unsplash-image-filler/scripts/unsplash_client.js:222-231 | runs the pipeline, swallows its outcome, and keeps the cursor and time it leaves |
| Unsplash.UnsplashClient.ClearCache | unsplash-image-filler/scripts/unsplash_client.js:236-238 | empties the cache and nothing else |

Three behaviours of the code to note:

- **Eligibility** (`auto_fill.js:208`) counts `.length`, that is UTF-16
  code units, not characters.
- **Key rotation.** With n keys all quota-limited, a round rotates n-1
  times and then backs off (`unsplash_client.js:121-144`). It does not
  rotate n times.
- **401 and 403 without a quota signal** are returned to the caller, not
  thrown as an authentication error (`unsplash_client.js:66-68`, 157).
  `searchPhotos` then throws a plain `Error` with the message
  `Unsplash API error: <status> <statusText>` because the response is not
  `ok` (`unsplash_client.js:189-191`); the model's `ApiError` keeps the
  status.

## Left out

- File I/O, glob, command-line and `.env` parsing, `process.exit`, statistics and console output: outside the decision logic.
- cheerio parsing, `buildSectionsByParagraphs`/`buildSectionsByHeadings` and the DOM insertion of article images: the builders' results are inputs of `ArticleModes.SectionsToProcess`.
- `getBestKeyword`, `extractTextFromHtml`/`extractTextFromJsx` and the NLP library: the query is not modelled. A placeholder's search outcome is an input.
- The `imgRegex` scan itself: its matches are inputs, with the assumption `Placeholders.WellFormed` (in order, non-overlapping, each opening an `img` tag).
- Placeholders.ByStartDescending: models the sort by its result on ranges that arrive in ascending order. That is the only order the scan produces. A general comparison sort is not modelled.
- The calls to `searchPhotos` and `trackDownload` inside `processFile` and `processArticle`: the placeholder pass takes each search's outcome as an input. It is not threaded through the client's state.
- `node-fetch`, with the request URL, query encoding and the `Authorization` header of `_withAuthHeader`: a server is a function of the request number and the access key.
- `Date.now()` and the real timers: time is a parameter. A wait advances it by the delay Node.js really waits. Request latency is zero.
- Unsplash.UnsplashClient.Create: the random start index is a given real in `[0, 1)`, not `Math.random()`.
- Unsplash.UnsplashClient.constructor: takes the start index as a parameter. Create derives it from the random number and throws on an empty pool.
- Unsplash.NormalizeAccessKeys: models string keys only, not `String(key)` of other values or a non-array argument.
- AccessKeys.ParseAccessKeys: a truthy non-string, non-array value (`String(rawValue)` of a number) is not modelled.
- Text.AsciiLower: lower-cases ASCII letters only, not all of Unicode. Outside ASCII, two characters lower-case into ASCII letters: U+212A KELVIN SIGN becomes `k`, and U+0130 becomes `i` followed by the combining dot U+0307. No mode name or quota phrase holds a `k`, and the combining dot after the `i` keeps every word from matching in the script as in the model, so the decisions agree with `toLowerCase`; the lower-cased strings themselves differ.
- Text.ReplaceFirst: inserts the replacement verbatim. `String.prototype.replace` expands `$&`, `$$`, `` $` `` and `$'` in a string replacement. The tag rewrite (`auto_fill.js:422`, 424, 428, 436) puts the photo URL and id into the replacement, so the model is exact only for URLs and ids without `$`.
- RetryPipeline.MessageList: the items of `error` and `errors` are taken to be strings. The code (`unsplash_client.js:78-87`) joins whatever truthy values they hold, so another JSON value, such as a nested array `["rate limit"]`, would be stringified and could match; the model does not represent that.
- Unsplash.UnsplashClient.SearchPhotos: a body without `results` (`undefined` cached) is not modelled. A JSON body always carries a list of photos.
- `maxRetries` and `requestDelay` are integers. Fractional or `NaN` options are not modelled.
- `downloadImage`, which always throws and is deprecated, is not modelled. Neither is `unsplash-image-filler/scripts/test_path.js`.
- Concurrency: the script awaits every call in sequence, so the client is modelled single-threaded.

## Findings

| source | as written | input that shows it | evidently intended | confidence | as-written member | corrected member |
|---|---|---|---|---|---|---|
| unsplash-image-filler/scripts/auto_fill.js:424-440 | `src`, id and marker are inserted with `replace("<img", …)`, which matches only a lower-case `<img`. The placeholders come from the case-insensitive `imgRegex` (`/gi`). | `<IMG data-unsplash-auto>`: the tag comes back unchanged, without `src`, id or `data-unsplash-processed` (`UpperCaseTagNeverMarked`), and the file is written back as it was. Each later run matches it again. | insert after the tag name the match found, whatever its case, so the marker is always added | not executed | Placeholders.AsWrittenPassKeepsUpperCase | Placeholders.RewriteTagMarks |
