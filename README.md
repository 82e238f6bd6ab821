# fetch-releases, modelled in Dafny

`fetch-releases.js` asks GitHub's list-releases endpoint for a repository's releases, page after page. It keeps the releases created in one target year and cuts each release's markdown changelog down to the sections whose `## ` heading names one of the kept categories, `Customer Value` and `Features`. It prints the result.

This project models the two parts of the script that hold its logic:

- **The changelog section filter** (`filterCategoriesFromMarkdown`), in module `Changelog`.
  - The method `FilterCategoriesFromMarkdown` keeps the source's single pass over the lines, with its `keepSection` flag and its `relevantContent` accumulator.
  - It is proved equal to the function `Filtered`, which says declaratively which lines survive. A line survives when it lies in a kept section: some kept heading stands at or before it, and no other heading comes in between.
- **The release selection and pagination rule** (the loops of `getReleasesForYear`), in module `Releases`.
  - The endpoint is a sequence of page answers. Each answer is either `Ok(releases)` or `Err(status, text)`.
  - The method `GetReleasesForYear` keeps the source's `while (true)` over pages and its inner scan of a page. The inner scan is the method `ScanPage`.
  - The method is proved equal to the function `Expected`. `Expected` names the page where the loop stops and the releases scanned up to that point.

Module `Text` models the JavaScript string built-ins the filter uses: `split`, `join`, `trim`, `startsWith`, `includes`, `replace` with a string pattern, and `toLowerCase`.

## Model

| member | source | states |
|---|---|---|
| Changelog.FilterCategoriesFromMarkdown | fetch-releases.js:41-64 | the single pass with the `keepSection` flag returns exactly `Filtered(markdown)`: the lines in kept sections, joined by newlines, then trimmed |
| Changelog.Filtered | fetch-releases.js:63 | the filter's result never starts or ends with whitespace |
| Changelog.Title | fetch-releases.js:49 | definition: the title of a `## ` line is the rest of the line after that prefix, trimmed |
| Changelog.TitleIsReplace | fetch-releases.js:49 | on a heading line, the title equals `trim()` applied to the line after `replace("## ", "")`, which removes the first occurrence of the pattern |
| Changelog.IsKeptTitle | fetch-releases.js:52-54 | definition: a title is kept when its lower-cased form contains the lower-cased name of some entry of `CategoriesToKeep`, the constant list `Customer Value`, `Features` of line 38 |
| Changelog.KindOf | fetch-releases.js:48-55 | definition: a line not starting with `## ` is a body line; a `## ` line is a kept heading when its title is kept and a dropped heading otherwise |
| Changelog.InKeptSectionStep | fetch-releases.js:48-60 | a heading line sets the flag from its own title; a body line leaves the flag as the line before left it |
| Changelog.SectionRule | fetch-releases.js:48-60 | every line from a heading up to the next heading is kept exactly when that heading is a kept one |
| Changelog.SectionOutput | fetch-releases.js:48-60 | a kept heading is emitted together with every line of its section, up to the next heading; a dropped heading and its section add nothing |
| Changelog.PreambleDropped | fetch-releases.js:44-60 | lines before the first heading are never kept |
| Changelog.NoHeadingYieldsEmpty | fetch-releases.js:44-60 | a body with no `## ` line filters to the empty string |
| Changelog.SelectedIsSubsequence | fetch-releases.js:42-61 | before the join and trim, the kept lines are an in-order subsequence of the lines of `split("\n")`; no line is rewritten |
| Changelog.KeptSectionsFilterToTrim | fetch-releases.js:41-64 | a body whose first line is a kept heading and that holds no heading of another category filters to itself, trimmed |
| Changelog.FilteredIdempotent | fetch-releases.js:41-64 | filtering a filtered body gives the same body back |
| Text.Trim | fetch-releases.js:63 | `trim()` leaves text that neither starts nor ends with whitespace |
| Text.IsWhitespace | fetch-releases.js:49 | definition: the characters `trim()` removes, the ECMAScript WhiteSpace and LineTerminator code points |
| Text.TrimIsMiddle | fetch-releases.js:49 | `trim()` cuts off only whitespace: its result is the middle of the text, between a whitespace prefix and a whitespace suffix |
| Text.TrimIdempotent | fetch-releases.js:63 | trimming twice is trimming once |
| Text.TrimKeepsTrimmed | fetch-releases.js:63 | text that neither starts nor ends with whitespace is left as it is by `trim()` |
| Text.ContainsOccurs | fetch-releases.js:53 | `includes` holds exactly when the pattern occurs at some index |
| Text.Contains | fetch-releases.js:53 | definition: `includes` tests whether the pattern is a prefix of the text or of some suffix of it; the empty pattern is contained everywhere |
| Text.StartsWith | fetch-releases.js:48 | definition: `startsWith` holds when the prefix is no longer than the text and equals the text's first characters |
| Text.ReplaceFirst | fetch-releases.js:49 | `replace("## ", "")` on a line that starts with `## ` removes that leading prefix; text without the pattern is returned unchanged |
| Text.ReplaceFirstAt | fetch-releases.js:49 | `replace` with a string pattern substitutes the first occurrence only and keeps everything around it |
| Text.ToLower | fetch-releases.js:53 | `toLowerCase` keeps the length and lower-cases each character |
| Text.JoinSplit | fetch-releases.js:42 | joining the pieces of `split(sep)` with `sep` gives back the text |
| Text.Split | fetch-releases.js:42 | `split` on a one-character separator always yields at least one piece; the empty text yields one empty piece |
| Text.Join | fetch-releases.js:63 | definition: `join` puts the separator between consecutive pieces; no pieces join to the empty text and one piece joins to itself |
| Text.SplitJoin | fetch-releases.js:63 | splitting a join gives back the pieces when no piece holds the separator |
| Text.SplitPieces | fetch-releases.js:42 | no piece of `split(sep)` holds the separator |
| Releases.GetReleasesForYear | fetch-releases.js:67-108 | the paging loop returns exactly `Expected(pages, year)` |
| Releases.Expected | fetch-releases.js:67-108 | reference definition of the loop's result: it stops at the first page that fails, is empty or holds a release older than the year; a failing stop page gives its status and text; otherwise the result is the records of the eligible releases of the pages before it and of the stop page's prefix before its first older release |
| Releases.ScanPage | fetch-releases.js:86-102 | the scan of one page stops at the page's first release older than the year, or at its end; it adds the records of the eligible releases before that point, in order |
| Releases.AddRecord | fetch-releases.js:88-97 | a release of the year adds one record, with the filtered body and the defaulted name, exactly when its filtered body is not empty |
| Releases.BodyText | fetch-releases.js:89 | definition: the default of `release.body` to the empty text: the body, or the empty text when there is none |
| Releases.DisplayName | fetch-releases.js:93 | definition: the default of `release.name` to `No name provided`: the name when present and non-empty, the placeholder otherwise |
| Releases.Eligible | fetch-releases.js:88-90 | definition: a release adds a record exactly when it is of the target year and its filtered body is not empty |
| Releases.EntryOf | fetch-releases.js:91-96 | definition: the record holds the release's creation date and URL, its display name and its filtered body |
| Releases.StopPage | fetch-releases.js:71-105 | the loop leaves every page before the stop page for the next one, and does not go on after the stop page |
| Releases.BeforeOlder | fetch-releases.js:98-101 | the releases of a page that the scan reaches are the longest prefix with no release older than the year |
| Releases.ErrorAborts | fetch-releases.js:78-80 | a failing page reached by the loop makes the call fail with that status and text; no record is returned |
| Releases.EmptyPageEnds | fetch-releases.js:83 | an empty page reached by the loop ends it, with the records of every page before it |
| Releases.StopsAtFirstOlder | fetch-releases.js:98-101 | the first release older than the year ends the call; no later release of that page and no later page contributes |
| Releases.NewerReleaseSkipped | fetch-releases.js:98-104 | a release newer than the year is skipped without stopping: removing it from a page that holds other releases changes nothing in the result |
| Releases.EntriesAreFromTargetYear | fetch-releases.js:88-96 | every record comes from a release of the target year with a non-empty filtered body; the record's body is that filtered body, its name is the release's name when present and non-empty and `No name provided` otherwise, and its date and URL are the release's |
| Releases.CollectMembers | fetch-releases.js:88-97 | the records are exactly the records of the eligible scanned releases |
| Releases.CollectAppend | fetch-releases.js:86-104 | collecting two runs of releases one after the other concatenates their records |
| Releases.CollectInOrder | fetch-releases.js:86-102 | the records keep the order of their releases |
| Releases.RecordsInPageOrder | fetch-releases.js:67-108 | the returned records are an in-order subsequence of the records of all releases of all pages, page after page |
| Releases.EmptyFirstPage | fetch-releases.js:83 | an empty first page returns no records and no error |
| Releases.FailingFirstPage | fetch-releases.js:78-80 | a failing first page fails the call with its status and text |
| Releases.ReleaseThenOlder | fetch-releases.js:86-101 | a first page holding a release of the year and then an older one returns that release's record alone, or no record when its filtered body is empty, whatever later pages hold |

## Left out

- The HTTP request, its `Authorization` header and the JSON decoding (fetch-releases.js:72-82) are not modelled. The endpoint is the sequence of its answers instead.
- A page asked for beyond the end of that sequence answers with an empty page. This is what GitHub returns past the last page, and it makes the loop terminate.
- A failed fetch is modelled as `Failed(status, text)`. The error message text built from status and body is not modelled.
- Network errors and JSON errors that `fetch` or `json()` would throw are not modelled.
- The environment checks and `process.exit` (fetch-releases.js:3-18) are not modelled. Line 3 tests `OWNER` twice and never tests `REPO`.
- The `parseInt(process.env.YEAR, 10) || 2024` default is left out. The target year is a parameter.
- Date parsing is left out. `new Date(created_at).getFullYear()` depends on the local time zone. Each release carries its year as a given integer.
- Because the year is a given integer, a `created_at` that does not parse is not modelled. That would give `NaN`, and such a release would be skipped like a newer one.
- The report printing in the main function (fetch-releases.js:110-134) is not modelled. That includes the `tag_name` it prints, which no record carries.
- The `async`/`await` sequencing is left out. The model is sequential.
- Text.ToLower: lower-cases the ASCII letters only, not the whole Unicode case mapping of `toLowerCase`.
- Text.IsWhitespace is the fixed set of ECMAScript WhiteSpace and LineTerminator code points, as of one Unicode version.
- Strings are sequences of Dafny characters, not UTF-16 code units.
- `release.name || "No name provided"` gives the placeholder both to a missing name and to an empty one. The model follows the code here (`DisplayName`).
- `Changelog.Title` is defined as the heading without its leading `## `, trimmed. The source calls `replace("## ", "")` instead. `FilterCategoriesFromMarkdown` calls `ReplaceFirst` as the source does, and `TitleIsReplace` proves the two agree on every heading line.
- The inner `for` loop of `getReleasesForYear` is a method of its own, `ScanPage`. Its early `return` becomes the loop condition, and `ScanPage` returns the index where the scan stopped.
