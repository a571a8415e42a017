# ARM engine core in Dafny

This project models the decision logic of the ARM dependency-update engine. The model covers:

- the scanner's reading of `npm outdated` output and its semver change-type classification (`src/scanner.js`);
- the update filter's policy: its defaults, the denylist, exclusion patterns, allowed change types, the partition into recommended and excluded updates, and the text summary (`src/filter.js`);
- the error categorizer and the transient-error test (`src/utils/error-categorizer.js`);
- retry with exponential backoff (`src/utils/retry.js`);
- the configuration validator (`src/utils/config-validator.js`);
- the Markdown job summary (`backend/utils/summary-generator.js`);
- the four sign-up form validators (`frontend/src/utils/validation.ts`).

Every operation is a pure function over immutable datatypes. Two JavaScript primitives the core relies on are modelled in their own modules (numbers as exact reals):

- `JsText`: `trim`, `includes`, `startsWith`, `split`, `join`, and rendering a number as digits.
- `JsNumber`: `Number(string)` as ECMAScript StringToNumber over exact reals, together with `>`, for which NaN never compares greater.

Three things the core calls are passed in as parameters:

- the parsed JSON of `npm outdated` (`Scanner.Decoded`);
- the glob matcher (`Filter.Matcher`, standing for `minimatch`);
- the operation being retried (`nat -> Attempt<T>`, the outcome of each call by attempt number).

The retry model records the sleeps it would make instead of sleeping.

Files:

- `common.dfy`: `Option` and `Result`.
- `jstext.dfy`, `jsnumber.dfy`: the JavaScript string and number semantics.
- `scanner.dfy`, `filter.dfy`: the scanner and the update filter.
- `errorcategorizer.dfy`, `retry.dfy`, `configvalidator.dfy`: the utilities.
- `summarygenerator.dfy`: the Markdown summary.
- `formvalidation.dfy`: the form validators.

Where the code and its tests or comments disagree, the model follows the code:

- **Rate-limit wording.** `categorizeError` matches "rate limit" case-sensitively (`src/utils/error-categorizer.js:36`). So "Rate Limit Exceeded" with no status is an unknown, permanent error. The unit test at `test/unit/error-categorizer.test.js:39-52` expects it to be a rate limit. `ErrorCategorizer.RateLimitWordingIsCaseSensitive` states the behaviour as written.
- **"Not Found".** The "Not Found" match is case-sensitive as well (`src/utils/error-categorizer.js:83`).
- **Check order.** The network-code check comes before the 401/403 check. An `ETIMEDOUT` error with status 401 is therefore a network error (`ErrorCategorizer.NetworkCodeBeforeAuthStatus`).
- **Change type.** The scanner computes the change type against `wanted || latest`, not `latest` (`src/scanner.js:113-120`).
- **Markdown counts.** The counts in the Markdown summary test `status.includes(...)` on emoji marks. A status with no mark is counted nowhere, and one with two marks is counted twice (`SummaryGenerator.UnmarkedStatusCountedNowhere`, `SummaryGenerator.DoublyMarkedStatusCountedTwice`).

## Model

| member | source | states |
|---|---|---|
| `Filter.NewPolicy` | src/filter.js:38-46 | each option given to the constructor is kept as given; each one left out takes its default: patch and minor allowed, major not, empty denylist and exclusion patterns |
| `Filter.DefaultPolicy` | src/filter.js:38-46 | with no options, patch and minor are allowed, major is not, and the denylist and exclusion patterns are empty |
| `Filter.DenylistIsExact` | src/filter.js:54-56 | denylist membership is exact, case-sensitive string equality: "express" does not block "Express" or "express-session" |
| `Filter.ChangeTypeFlags` | src/filter.js:76-87 | patch, minor and major are each allowed exactly by their own flag; any other change type is never allowed |
| `Filter.Capitalize` | src/filter.js:130 | the policy reason keeps the type's length and everything after the first character; a lower-case first letter becomes its upper-case letter, and any other first character is kept |
| `Filter.MajorReason` | src/filter.js:127-133 | a blocked major update gives the reason "Major updates not allowed by policy" |
| `Filter.Decide` | src/filter.js:97-136 | the denylist wins over exclusion patterns, which win over the change-type policy; a dependency that passes both lists is recommended exactly when its type is allowed, and is otherwise excluded with the capitalised-type reason |
| `Filter.IsDenylisted` | src/filter.js:54-56 | a package is denylisted exactly when some denylist entry equals its name |
| `Filter.IsExcluded` | src/filter.js:64-68 | a package is excluded exactly when some exclusion pattern matches its name; with no patterns nothing is excluded |
| `Filter.IsChangeTypeAllowed` | src/filter.js:76-87 | only patch, minor or major can be allowed; any other change type never is |
| `Filter.FilterDeps` | src/filter.js:94-143 | the two list sizes add up to the input's; each recommended dependency has the verdict Recommend, and each exclusion carries the reason its verdict gives (that each input lands in exactly one list is `Filter.FilterPartitions` and `Filter.FilterPlaces`) |
| `Filter.FilterReport` | src/filter.js:94-143 | `filter(report)`: the recommended dependencies and the excluded ones together are a permutation of the report's dependencies |
| `Filter.FilterLoop` | src/filter.js:94-143 | the imperative loop that pushes onto the two lists yields the same result as the functional definition |
| `Filter.FilterSelects` | src/filter.js:97-136 | the recommended list is the passing dependencies in input order, and the excluded list is the failing ones in input order |
| `Filter.FilterPartitions` | src/filter.js:94-143 | the two lists together are a permutation of the input, and each is a subsequence of it |
| `Filter.FilterPlaces` | src/filter.js:94-143 | each input dependency appears in the list its verdict names, and an exclusion carries its reason |
| `Filter.MajorBlockedScenario` | src/filter.js:94-143 | with major updates disallowed, express (minor) and lodash (patch) are recommended in order, and react (major) is excluded as "Major updates not allowed by policy" |
| `Filter.UpdateTextShape` | src/filter.js:156-158 | the plain `current → latest` text appears exactly when wanted equals latest; otherwise the text ends by naming the latest version |
| `Filter.SummaryLayout` | src/filter.js:150-176 | the summary's lines: a count header and one line per recommended update, or "No updates recommended."; then, only if something is excluded, a blank-line-led count header and one line per exclusion with its reason |
| `Filter.ExcludedBlockIffExclusions` | src/filter.js:165-173 | some summary line opens the Excluded block exactly when the exclusion list is non-empty |
| `Filter.GetSummary` | src/filter.js:150-176 | the summary text opens with the recommended-count header or "No updates recommended."; when no field holds a line break, splitting it at line breaks gives the recommended block, then (only if something is excluded) a blank line, "Excluded: n" and one line per exclusion |
| `Filter.SummaryOpening` | src/filter.js:153-163 | the summary starts with "No updates recommended." exactly when nothing is recommended |
| `Scanner.StripRangePrefix` | src/scanner.js:82-83 | one leading `v`, `^` or `~` is removed, and nothing else changes |
| `Scanner.DetermineChangeType` | src/scanner.js:80-93 | the result is always one of patch, minor or major |
| `Scanner.ChangeTypeRules` | src/scanner.js:80-93 | major exactly when the target's first component is greater; minor exactly when it is not but the second is; patch otherwise; components are compared as JavaScript numbers, so NaN is never greater |
| `Scanner.ChangeTypeOfReleases` | src/scanner.js:80-93 | for plain `x.y.z` releases the classification is the numeric comparison of major, then minor |
| `Scanner.ReleaseComponents` | src/scanner.js:85-86 | splitting a rendered `x.y.z` on dots and converting each part with `Number` gives back the numbers |
| `Scanner.PrefixIgnored` | src/scanner.js:82-83 | a leading range character on either version does not change the classification |
| `Scanner.TargetVersion` | src/scanner.js:113 | the target is `wanted` when that is a non-empty string, otherwise `latest` |
| `Scanner.ToDependency` | src/scanner.js:115-122 | the package is the entry's key; current and latest fall back to "unknown"; the entry's `type` becomes the location, falling back to "dependencies"; the change type is computed from current against the target |
| `Scanner.ParseError` | src/scanner.js:128-130 | the thrown message is "Failed to parse npm outdated output: " followed by the cause's message |
| `Scanner.ConvertEntries` | src/scanner.js:110-129 | the entries are converted in order, one dependency each; one inconvertible entry fails the whole parse with the parse-failure prefix and the TypeError's message |
| `Scanner.ParseNpmOutdated` | src/scanner.js:101-130 | blank output gives no dependencies; malformed JSON fails with the parse-failure prefix and the syntax error's message; every failure carries that prefix; otherwise the result succeeds exactly when every entry converts, with one dependency per entry in order |
| `Scanner.EmptyObjectParsesEmpty` | src/scanner.js:107-127 | `{}` parses to no dependencies |
| `Scanner.ChangeTypeUsesWanted` | src/scanner.js:113-120 | 4.17.1 with wanted 4.17.3 and latest 4.18.2 is a patch update, because the comparison is against wanted |
| `JsNumber.ToNumber` | src/scanner.js:85-86 | `Number` of a blank string is 0 |
| `JsNumber.ToNumberReadsTrimmed` | src/scanner.js:85-86 | `Number` reads the literal left after trimming white space from both ends |
| `JsNumber.NumberOfNatToString` | src/scanner.js:85-86 | `Number` of a rendered non-negative integer is that integer |
| `ErrorCategorizer.Rule` | src/utils/error-categorizer.js:34-112 | a network category implies one of the listed error codes; a service-unavailable category implies status 502 or 503 |
| `ErrorCategorizer.Categorize` | src/utils/error-categorizer.js:34-113 | the category is the first rule that fires; the type is transient exactly for rate-limit, network and service-unavailable errors; the suggested fix is the one for the category |
| `ErrorCategorizer.CategoryMessage` | src/utils/error-categorizer.js:46-112 | a network error's message names its code; a service-unavailable message contains its status; an unknown error keeps its own non-empty message, and otherwise reads "Unknown error occurred" |
| `ErrorCategorizer.MessageFor` | src/utils/error-categorizer.js:40-110 | every category's message is non-empty, and a service-unavailable message contains the HTTP status |
| `ErrorCategorizer.FixFor` | src/utils/error-categorizer.js:41-111 | every fix is non-empty, and it opens with "R" or "W" (Retry, Wait) exactly for the retried categories |
| `ErrorCategorizer.CategoryIsFirstSignal` | src/utils/error-categorizer.js:34-112 | the chosen category's signal is present, and no earlier rule's signal is |
| `ErrorCategorizer.IsTransientError` | src/utils/error-categorizer.js:131-134 | an error is transient exactly when its category is rate limit, network or service unavailable |
| `ErrorCategorizer.TransientIffSignal` | src/utils/error-categorizer.js:131-134 | an error is transient exactly when it carries the rate-limit, network-code or 502/503 signal |
| `ErrorCategorizer.BareErrorIsUnknown` | src/utils/error-categorizer.js:106-112 | an error with no message, code or status is an unknown, permanent error with the default message and fix |
| `ErrorCategorizer.MessageOnlyUnknown` | src/utils/error-categorizer.js:106-112 | an error with only a message that contains no rule word is unknown, and its own message is kept |
| `ErrorCategorizer.NetworkCodeBeforeAuthStatus` | src/utils/error-categorizer.js:46-80 | an ETIMEDOUT error with status 401 is a transient network error, not an authentication error |
| `ErrorCategorizer.RateLimitWordingIsCaseSensitive` | src/utils/error-categorizer.js:36 | "Rate Limit Exceeded" with no status is unknown and not transient |
| `Retry.RunFrom` | src/utils/retry.js:46-72 | from a given attempt on, the loop makes at most the remaining number of calls; it sleeps base·2^attempt before each retry; every call before the last failed transiently; the last call's outcome is returned or rethrown; a rethrown error is permanent or came from the last allowed attempt |
| `Retry.Run` | src/utils/retry.js:43-75 | at most maxRetries+1 calls; no call at all exactly when maxRetries is negative, which throws undefined; the i-th sleep is baseDelay·2^i |
| `Retry.RetryWithBackoff` | src/utils/retry.js:43-75 | at most maxRetries+1 calls, none when maxRetries is negative; every call before the last threw an error `isTransientError` accepts; the last call's value is returned or its error rethrown; a rethrown error is one `isTransientError` rejects, or the budget is spent |
| `Retry.PermanentCategoryFailsFast` | src/utils/retry.js:47-56 | an error the categorizer files as permanent on the first call is rethrown after that one call, with no sleep |
| `Retry.TransientCategoryRetried` | src/utils/retry.js:47-69 | while every failure is categorized transient and budget remains, the failure of attempt k is followed by a sleep of baseDelay·2^k and another call |
| `Retry.RetryWithDefaults` | src/utils/retry.js:43 | with the default options the operation is called between one and four times |
| `Retry.FirstSuccessReturned` | src/utils/retry.js:47-48 | if attempt k succeeds after k transient failures within budget, its value is returned after k calls' worth of sleeps |
| `Retry.PermanentErrorRethrown` | src/utils/retry.js:53-56 | a permanent error at attempt k is rethrown at once, with no further calls |
| `Retry.ExhaustedRethrowsLast` | src/utils/retry.js:59-62 | when every allowed attempt fails transiently, the last error is rethrown after maxRetries+1 calls |
| `Retry.DefaultBackoffSchedule` | src/utils/retry.js:43-69 | with defaults and only transient failures, the sleeps are 1000, 2000 and 4000 ms and the fourth error is rethrown |
| `Retry.NegativeBudgetThrowsUndefined` | src/utils/retry.js:74 | a negative retry budget never calls the operation and throws the undefined last error |
| `Retry.RetryLoop` | src/utils/retry.js:43-75 | the imperative for-loop computes the same run as the recursive definition |
| `ConfigValidator.CheckDenylist` | src/utils/config-validator.js:59-74 | the denylist check passes exactly when every entry is a non-blank string |
| `ConfigValidator.FirstBadDenylistEntry` | src/utils/config-validator.js:65-73 | the first bad denylist entry is reported with its index |
| `ConfigValidator.PresentObject` | src/utils/config-validator.js:24 | a present "object" is a non-null object or array |
| `ConfigValidator.PresentString` | src/utils/config-validator.js:28 | a present "string" is a non-empty string |
| `ConfigValidator.CheckTarget` | src/utils/config-validator.js:24-30 | the target check passes exactly when target is an object with a non-empty string repository |
| `ConfigValidator.CheckGovernance` | src/utils/config-validator.js:33-43 | the governance check passes exactly when governance is an object with a non-empty string repository and a non-zero numeric epicNumber |
| `ConfigValidator.CheckPolicy` | src/utils/config-validator.js:46-79 | the policy check passes exactly when the policy is an object, allowMajor is not strictly true, a present denylist is an array of non-blank strings, and a present excludePatterns is an array |
| `ConfigValidator.ValidateConfig` | src/utils/config-validator.js:17-83 | a configuration is valid exactly when it is an object and its target, governance and policy sections pass their checks; a non-object is rejected with "Config must be a valid object" |
| `ConfigValidator.FirstFailingCheckReported` | src/utils/config-validator.js:17-83 | the eleven checks run in source order (object, target section, target repository, governance section, governance repository, epicNumber, policy section, allowMajor, denylist array, denylist entries, excludePatterns array); the configuration is valid exactly when it passes all of them, and otherwise the error raised is that of the earliest check it fails, the denylist-entry error naming the first bad entry |
| `ConfigValidator.AllowMajorOnlyStrictTrueRejected` | src/utils/config-validator.js:51-56 | in an otherwise valid configuration, only the boolean `true` for allowMajor is rejected; any other value passes |
| `ConfigValidator.AllowMajorTrueNeverValid` | src/utils/config-validator.js:17-56 | any configuration whose policy.allowMajor is boolean `true` is rejected, by that check or an earlier one |
| `ConfigValidator.ExcludePatternsEntriesUnchecked` | src/utils/config-validator.js:77-79 | the entries of an excludePatterns array are never inspected |
| `ConfigValidator.EpicNumberZeroRejected` | src/utils/config-validator.js:41-43 | an epicNumber of 0 is rejected, because the check is falsiness |
| `SummaryGenerator.Rows` | backend/utils/summary-generator.js:40-49 | one table row per result, in order |
| `SummaryGenerator.LinkCellIffPresent` | backend/utils/summary-generator.js:42-47 | a story or pull-request cell reads "N/A" exactly when the link is absent; a present link's cell ends with its address in Markdown link form |
| `SummaryGenerator.Count` | backend/utils/summary-generator.js:52-55 | a count never exceeds the number of results |
| `SummaryGenerator.GenerateMarkdownSummary` | backend/utils/summary-generator.js:29-65 | the summary always opens with the title and a blank line |
| `SummaryGenerator.NothingProcessedIffNoResults` | backend/utils/summary-generator.js:30-35 | the "no dependencies processed" text appears exactly when results are missing or empty |
| `SummaryGenerator.SummaryLayout` | backend/utils/summary-generator.js:37-64 | the summary's lines are the title, a blank, the header, the rule, one row per result, a blank, the totals, and a final empty line |
| `SummaryGenerator.RowIsSingleLine` | backend/utils/summary-generator.js:40-49 | a row built from newline-free fields has no newline |
| `SummaryGenerator.EveryRowReported` | backend/utils/summary-generator.js:40-64 | every result's row occurs in the summary |
| `SummaryGenerator.CountAppend` | backend/utils/summary-generator.js:52-55 | counts add over concatenated result lists |
| `SummaryGenerator.UnmarkedStatusCountedNowhere` | backend/utils/summary-generator.js:52-55 | a status with no mark is counted in no column |
| `SummaryGenerator.DoublyMarkedStatusCountedTwice` | backend/utils/summary-generator.js:52-55 | a status with both the created and failed marks is counted in both columns |
| `FormValidation.EmailShapeIffPattern` | frontend/src/utils/validation.ts:2 | the direct shape check accepts exactly the strings the email regular expression matches |
| `FormValidation.ValidateEmail` | frontend/src/utils/validation.ts:1-6 | an empty address reports "Email is required" |
| `FormValidation.EmailAcceptedIffPattern` | frontend/src/utils/validation.ts:1-6 | an address is accepted exactly when it matches the pattern; a non-empty mismatch is a format error |
| `FormValidation.ValidatePassword` | frontend/src/utils/validation.ts:8-16 | an empty password reports "Password is required" |
| `FormValidation.PasswordReportsFirstBrokenRule` | frontend/src/utils/validation.ts:8-16 | the reported message is that of the earliest rule (required, length, upper, lower, digit, special) the password breaks; nothing is reported exactly when it breaks none |
| `FormValidation.PasswordAcceptedIff` | frontend/src/utils/validation.ts:8-16 | a password is accepted exactly when it has at least 8 UTF-16 units, an upper-case letter, a lower-case letter, a digit and one of `!@#$%^&*` |
| `FormValidation.ShortPasswordReportsLength` | frontend/src/utils/validation.ts:10 | length is checked before the character classes |
| `FormValidation.BmpLength` | frontend/src/utils/validation.ts:10 | eight characters from the Basic Multilingual Plane pass the length rule |
| `FormValidation.ValidatePasswordMatch` | frontend/src/utils/validation.ts:18-21 | no error exactly when the two strings are equal; otherwise "Passwords do not match" |
| `FormValidation.ValidateRequired` | frontend/src/utils/validation.ts:23-26 | no error exactly when the value is not blank; otherwise the field name followed by " is required" |

## Left out

- File system, child processes and the network: `scan`, running `npm outdated`, the GitHub story and pull-request creators, and the CLI drivers are not part of this model.
- `JSON.parse` is a parameter (`Scanner.Decoded`): malformed input or entries, in `Object.entries` order.
- `minimatch` is a parameter (`Filter.Matcher`): glob semantics are not modelled.
- `sleep` and logging in `retryWithBackoff` are left out. The delays are recorded in the run instead.
- `logConfigSummary` and `writeJobSummary` only log or write files, and are left out.
- `JsNumber.ToNumber`: it reads decimal literals as exact reals, not rounded doubles. This only matters for components beyond 2^53 or with long fractions.
- `JsNumber.ToNumber`: it strips white space one character at a time from either end. `JsNumber.ToNumberReadsTrimmed` proves this equals reading the trimmed literal.
- `Filter.Capitalize`: `toUpperCase` is modelled for ASCII letters only.
- `Filter.NewPolicy`: the policy flags are booleans. A non-boolean truthy flag is not modelled.
- `Retry.Run`: the retry budget is an integer. A fractional or NaN `maxRetries` is not modelled.
- `Retry.Run`: the retry lemmas are stated for any error classifier. `Retry.RetryWithBackoff` instantiates them with `isTransientError`.
- `ErrorCategorizer.Categorize`: errors are records of an optional message, code and status. A thrown non-object is not modelled.
- `ErrorCategorizer.FixFor`: the contract fixes each fix's first letter, not its full text.
- `ErrorCategorizer.Categorize`: the contract fixes the category, type and fix. The messages with details are stated by `ErrorCategorizer.CategoryMessage`. The fixed texts of the rate-limit, auth, not-found and config messages are not restated in any contract.
- `Scanner.ParseNpmOutdated`: a `null` entry value and non-string `wanted`/`latest` fields are not modelled. A missing `current` or target fails the whole parse, as the thrown TypeError does.
- `Scanner.ConvertEntries`: the TypeError's message is fixed to V8's wording "Cannot read properties of undefined (reading 'replace')". A JSON syntax error's message is passed in with `Scanner.Decoded`.
- `ConfigValidator.CheckDenylist`: `trim() === ''` is modelled with the same white-space set as `String.prototype.trim`.
- `SummaryGenerator.Rows`: story and pull-request links are kept as their URL and number, with the number rendered as digits.
