# yt-mp4-cli: format selection and file naming, in Dafny

`yt-mp4-cli` downloads a YouTube video as an MP4 file. Almost all of `src/downloader.js` is
network, file-system and terminal plumbing around `@distube/ytdl-core`. This project models
the decisions that plumbing depends on and proves what they guarantee:

- **Format selection in `getVideoInfo`** (`FormatSelection`).
  - The candidate list: the mp4 entries with both audio and video, or else every entry with
    video.
  - The "no formats" error.
  - The three `reduce` folds that pick one candidate for the quality preferences `highest`
    (the manual fallback used when `ytdl.chooseFormat` throws), `lowest` and a numeric target
    such as `"720p"`.
  - The "invalid quality" error.
  - The catch block that rewrites error messages.
- **File names** (`FileNames`).
  - `sanitizeFilename`.
  - The choice between the `output` option and the video title.
  - The `.mp4` suffix step in `downloadVideo`.
  - The `^\d+-player-script\.js$` pattern that `cleanupPlayerScripts` deletes files by.
- **The ECMAScript string semantics these rely on** (`JsText`).
  - The white-space class shared by `\s`, `trim` and `parseInt`.
  - `trim`, `endsWith` and `includes`.
  - `parseInt` without a radix: leading white space, one sign, a `0x` prefix that switches
    to base 16, the longest digit prefix, and `NaN` (here `None`) when there is no digit.

Everything is modelled as functions over values with lemmas about them. The source never
updates state in place in these parts; the one reassignment, `filename += '.mp4'`, is a
function here.

Three things the code depends on are not computed here but passed in as parameters:

- `ytdl.getInfo` becomes `fetched`, either the format list or the message of the error it
  threw.
- `ytdl.chooseFormat` becomes `library`, either the format it returned or `None` when it
  threw.
- The video title becomes `title`.

The folds are proved against one reference, `IsFirstMinimum`: the earliest entry of least
rank. Each preference is that reference under its own rank:

- `highest`: the negated height, with `parseInt(h) || 0`.
- `lowest`: the height, with `parseInt(h) || Infinity`.
- A numeric target: the distance `|height - target|`.

Strict `<` and `>` keep the earlier entry on ties, and every specification lemma states
that tie-break.

## Model

| member | source | states |
|---|---|---|
| FormatSelection.Filter | src/downloader.js:55-62 | an entry is kept exactly when it is in the list and passes the test; the result is no longer than the list |
| FormatSelection.FilterAppend | src/downloader.js:55-62 | filtering distributes over concatenation, so the kept entries keep their order |
| FormatSelection.Candidates | src/downloader.js:55-64 | every candidate is an input entry with video; the list is empty exactly when no entry has video |
| FormatSelection.CandidatesSpec | src/downloader.js:55-64 | the candidates are the ordered mp4 audio+video entries when one exists, otherwise the ordered entries with `hasVideo`, since `(hasVideo && hasAudio) \|\| hasVideo` is `hasVideo` |
| FormatSelection.Below | src/downloader.js:78-108 | the strict comparison of each fold; `Infinity` is below nothing and every number is below `Infinity`; its consequences are stated by `FoldFromLeads` and `ReduceToMinimumSpec` |
| FormatSelection.ReduceToMinimum | src/downloader.js:78-108 | `reduce` without an initial value, starting from the first candidate; by `ReduceToMinimumSpec` it returns the earliest candidate of least rank |
| FormatSelection.FoldFrom | src/downloader.js:78-108 | the `reduce` callback applied candidate by candidate, replacing the kept one only on a strictly smaller rank; by `FoldFromLeads` it ends on the earliest least candidate |
| FormatSelection.FoldFromLeads | src/downloader.js:78-108 | a fold that holds the earliest least entry of a prefix ends on the earliest least entry of the whole list |
| FormatSelection.ReduceToMinimumSpec | src/downloader.js:78-108 | a `reduce` that replaces the kept entry only on a strictly smaller rank returns the earliest entry of least rank |
| FormatSelection.FirstMinimumUnique | src/downloader.js:78-108 | the earliest least entry is unique, so the fold's result is determined |
| FormatSelection.HeightOrZero | src/downloader.js:79-80 | `parseInt(h) \|\| 0` (also at lines 100-101): a missing height counts as 0; used by `HighestFallbackSpec` and `ClosestSpec` |
| FormatSelection.HeightOrInfinity | src/downloader.js:87-88 | `parseInt(h) \|\| Infinity`: a missing or zero height counts as `Infinity`; used by `LowestSpec` and `LowestPrefersKnownHeight` |
| FormatSelection.HighestFallback | src/downloader.js:78-82 | the manual `highest` fold; its contract is `HighestFallbackSpec` |
| FormatSelection.Lowest | src/downloader.js:86-90 | the `lowest` fold; its contract is `LowestSpec`, `LowestPrefersKnownHeight` and `LowestWithoutHeights` |
| FormatSelection.Closest | src/downloader.js:99-108 | the fold towards a numeric target; its contract is `ClosestSpec` |
| FormatSelection.HighestFallbackSpec | src/downloader.js:78-82 | the manual `highest` pick has a height (0 when missing) at least every candidate's, and every earlier candidate is strictly lower |
| FormatSelection.LowestSpec | src/downloader.js:86-90 | the `lowest` pick has a height (Infinity when missing or 0) that no candidate undercuts, and every earlier candidate is strictly higher |
| FormatSelection.LowestPrefersKnownHeight | src/downloader.js:87-89 | if any candidate has a known non-zero height, `lowest` picks one with a known non-zero height |
| FormatSelection.LowestWithoutHeights | src/downloader.js:86-90 | when no candidate has a known non-zero height, `lowest` returns the first candidate |
| FormatSelection.ClosestSpec | src/downloader.js:99-108 | the target pick minimises `\|height - target\|` (height 0 when missing), and every earlier candidate is strictly farther |
| FormatSelection.SelectFormat | src/downloader.js:55-109 | the selection part of `getVideoInfo`; its contract is `SelectFormatErrors`, `SelectedFormatIsCandidate` and `SelectsClosest` |
| FormatSelection.SelectFormatErrors | src/downloader.js:64-96 | with no video entry the selection fails with "No video formats…" whatever the quality; otherwise it fails exactly when the quality is neither `highest` nor `lowest` and has no number `parseInt` can read (see `ParseIntDefined`: `"0x"` and `"0xg"` are rejected too), with the invalid-quality message |
| FormatSelection.SelectedFormatIsCandidate | src/downloader.js:55-108 | unless the library answered, the selected format is an input entry with video, and an mp4 with audio whenever one exists |
| FormatSelection.SelectsHighest | src/downloader.js:72-83 | quality `highest` selects the library's answer when it gives one, and otherwise the manual fallback fold that `HighestFallbackSpec` characterises |
| FormatSelection.SelectsLowest | src/downloader.js:84-90 | quality `lowest` selects by the `lowest` fold that `LowestSpec` characterises |
| FormatSelection.SelectsClosest | src/downloader.js:93-108 | a quality other than `highest`/`lowest` that parses to `n` selects the candidate closest to `n` |
| FormatSelection.ParseInt720p | src/downloader.js:93 | `parseInt("720p")` is 720 |
| FormatSelection.ClosestExample | src/downloader.js:99-108 | heights 360, 480, 720, 1080 with target 720 give the 720 entry |
| FormatSelection.TargetExample | src/downloader.js:55-108 | the whole selection with quality "720p" over those four mp4 entries returns the 720 entry |
| FormatSelection.MentionsNothingWithoutInitials | src/downloader.js:113-119 | a message containing none of `S P V C U` matches none of the five texts the catch block looks for |
| FormatSelection.ExtractionMentionsNothing | src/downloader.js:119-120 | the extraction-failure replacement message matches none of the five texts |
| FormatSelection.AgeRestrictedMentionsNothing | src/downloader.js:113-114 | the age-restriction replacement message matches none of the five texts |
| FormatSelection.PrivateMentionsNothing | src/downloader.js:115-116 | the private-video replacement message matches none of the five texts |
| FormatSelection.UnavailableMentionsNothing | src/downloader.js:117-118 | the unavailable replacement message matches none of the five texts |
| FormatSelection.RewrittenMentionsNothing | src/downloader.js:113-122 | whatever the catch block throws matches none of the texts it looks for |
| FormatSelection.TranslateError | src/downloader.js:113-122 | the catch block's rewrite of a message; its contract is `TranslateErrorChangesExactlyMentions`, `RewrittenMentionsNothing` and `TranslateErrorIdempotent` |
| FormatSelection.TranslateErrorChangesExactlyMentions | src/downloader.js:113-122 | a message is changed exactly when it mentions one of the five texts; any other error is rethrown unchanged |
| FormatSelection.TranslateErrorIdempotent | src/downloader.js:113-122 | rewriting an already rewritten message changes nothing |
| FormatSelection.GetVideoInfo | src/downloader.js:50-123 | `getVideoInfo` as written, with every error of the `try` rewritten; `QualityReportedAsPrivateVideo` shows the misreport it causes |
| FormatSelection.GetVideoInfoIntended | src/downloader.js:50-123 | `getVideoInfo` with only the errors of `ytdl.getInfo` rewritten; its contract is `IntendedReportsInvalidQuality` and `IntendedAgreesWithWritten` |
| FormatSelection.PrivateVideoIsNotANumber | src/downloader.js:93-95 | `parseInt("Private video")` is NaN, so that quality is rejected as invalid |
| FormatSelection.InvalidQualityMentionsPrivateVideo | src/downloader.js:95-116 | the invalid-quality message for quality "Private video" is rewritten to the private-video message |
| FormatSelection.QualityReportedAsPrivateVideo | src/downloader.js:93-116 | as written, `getVideoInfo` with quality "Private video" over a playable list reports "This video is private…" |
| FormatSelection.IntendedReportsInvalidQuality | src/downloader.js:93-96 | with only the library's errors rewritten, an unreadable quality over a list with a video entry is always reported with the invalid-quality message quoting it |
| FormatSelection.IntendedAgreesWithWritten | src/downloader.js:50-123 | the written and the corrected `getVideoInfo` succeed on the same inputs with the same format, and agree on every error from `ytdl.getInfo` |
| JsText.DigitValue | src/downloader.js:93 | a digit's value is below 16, and below 10 exactly for a decimal digit |
| JsText.NonSpaceAppend | src/downloader.js:15-16 | removing white space distributes over concatenation |
| JsText.TrimStart | src/downloader.js:16 | the result is a suffix; everything dropped is white space; it does not start with white space |
| JsText.TrimEnd | src/downloader.js:16 | the result is a prefix; everything dropped is white space; it does not end with white space |
| JsText.Trim | src/downloader.js:16 | `trim`: white space removed at both ends; its contract is `TrimSpec` and `TrimOfTrimmed` |
| JsText.TrimSpec | src/downloader.js:16 | `trim` returns a middle slice with white space at neither end, and loses nothing but white space |
| JsText.TrimOfTrimmed | src/downloader.js:16 | a string with white space at neither end is its own trim |
| JsText.Includes | src/downloader.js:113-119 | `includes`; its contract is `IncludesAt` and `IncludesWitness` (both directions of "occurs at some position") |
| JsText.IncludesAt | src/downloader.js:113-119 | an occurrence at some position makes `includes` true |
| JsText.IncludesWitness | src/downloader.js:113-119 | when `includes` holds, an occurrence exists at some position |
| JsText.MissingCharExcludes | src/downloader.js:113-119 | a text containing a character the message lacks does not occur in it |
| JsText.MissingPairExcludes | src/downloader.js:113-119 | a text containing two adjacent characters that never meet in the message does not occur in it |
| JsText.EndsWith | src/downloader.js:155 | `endsWith`: the last characters are the suffix; used by `WithMp4Suffix`, whose contract relies on it |
| JsText.ParseInt | src/downloader.js:93 | `parseInt` without a radix; its contract is `ParseIntDefined`, `ParseIntSkipsSpace` and `ParseIntShowInt` |
| JsText.DigitRun | src/downloader.js:93 | `parseInt`'s digit scan takes the longest prefix of digits of the chosen base |
| JsText.ParseIntDefined | src/downloader.js:93-94 | `parseInt` gives a number exactly when, after white space and one sign, a digit follows (a hex digit after `0x`) |
| JsText.ParseIntSkipsSpace | src/downloader.js:93 | leading white space does not change what `parseInt` returns |
| JsText.ShowNatValue | src/downloader.js:93 | the decimal digits of `n` read back as `n` |
| JsText.ParseIntShowInt | src/downloader.js:93 | `parseInt` of an integer's decimal form followed by a suffix that does not start with a digit, such as "p", is that integer; after 0 the suffix must also not start with `x` or `X`, since `0x` starts a hexadecimal number |
| FileNames.StripIllegal | src/downloader.js:14 | no `< > : " / \ \| ? *` remains, and every other character of the input does |
| FileNames.StripIllegalAppend | src/downloader.js:14 | deletion distributes over concatenation, so the kept characters keep their order |
| FileNames.StripIllegalOfClean | src/downloader.js:14 | a name without those characters is unchanged |
| FileNames.Collapse | src/downloader.js:15 | every white-space character of the result is a plain space, and no two white-space characters are adjacent |
| FileNames.CollapseKeepsText | src/downloader.js:15 | collapsing changes white space only: the non-white-space characters are the same, in order |
| FileNames.CollapseKeepsLegal | src/downloader.js:15 | collapsing brings in no illegal character |
| FileNames.CollapseOfSingleSpaced | src/downloader.js:15 | a single-spaced name is unchanged |
| FileNames.CollapseOfSpaces | src/downloader.js:15 | a non-empty run made only of white space becomes exactly one plain space |
| FileNames.CollapseAppend | src/downloader.js:15 | when `x` and `y` do not meet inside a white-space run, `x + y` collapses to the collapse of `x` followed by that of `y`; with `CollapseOfSpaces` this says each run becomes one space and visible text is unchanged |
| FileNames.CollapseIdempotent | src/downloader.js:15 | collapsing twice is collapsing once |
| FileNames.IsPlayerScript | src/downloader.js:28 | the `^\d+-player-script\.js$` test; its contract is `IsPlayerScriptMatchesPattern` |
| FileNames.Prefix | src/downloader.js:17 | `substring(0, n)` is a prefix of at most `n` characters, the whole string when it is no longer |
| FileNames.Sanitize | src/downloader.js:12-18 | the result has at most 200 characters, no illegal character, only single plain spaces, and no leading white space |
| FileNames.SanitizeKeepsText | src/downloader.js:12-18 | the visible text of the result is a prefix of the input's with illegal characters removed, and all of it when the result is shorter than 200 |
| FileNames.SanitizeOfSanitized | src/downloader.js:12-18 | sanitizing an already sanitized name only trims its end |
| FileNames.TrimEndOfSanitized | src/downloader.js:12-18 | a sanitized name loses at most one trailing space to `trimEnd` |
| FileNames.SanitizeIdempotentUnlessTrailingSpace | src/downloader.js:12-18 | sanitizing twice equals sanitizing once exactly when the first result does not end in a space |
| FileNames.CutAfterSpace | src/downloader.js:16-17 | 199 visible characters, a space and one more are cut to end in the space, which a second pass removes |
| FileNames.SanitizeNotIdempotent | src/downloader.js:12-18 | some name sanitizes differently a second time |
| FileNames.WithMp4Suffix | src/downloader.js:155-157 | the result ends with `.mp4` and extends the name by nothing or by exactly the four characters `.mp4`; it is the name itself exactly when the name already ends with `.mp4` |
| FileNames.WithMp4SuffixIdempotent | src/downloader.js:155-157 | the suffix step applied twice is applied once |
| FileNames.SuffixedSanitizedName | src/downloader.js:155-157 | a sanitized name with `.mp4` ensured ends with `.mp4`, has no illegal character, has at most 204 characters and does not start with white space |
| FileNames.OutputFileName | src/downloader.js:147-157 | the file name ends with `.mp4`, has no illegal character, has at most 204 characters and does not start with white space |
| FileNames.GivenOutputIsUsed | src/downloader.js:148-149 | a non-empty `output` decides the name alone: it begins with the sanitized option and does not depend on the title |
| FileNames.MissingOutputUsesTitle | src/downloader.js:150-151 | without `output`, or with an empty one, the name begins with the sanitized title |
| FileNames.BlankOutputIgnoresTitle | src/downloader.js:148-157 | a non-empty `output` made only of white space and illegal characters yields the bare name `.mp4` |
| FileNames.IsPlayerScriptMatchesPattern | src/downloader.js:28 | the scanner accepts a name exactly when it is one or more ASCII digits followed by `-player-script.js` |
| FileNames.NumberedPlayerScriptMatches | src/downloader.js:28 | every number's decimal form followed by `-player-script.js` is accepted |
| FileNames.UnnumberedPlayerScriptDoesNotMatch | src/downloader.js:28 | `-player-script.js` with no number in front is not accepted |

## Left out

- `ytdl.getInfo`, `ytdl.validateURL` and `ytdl.downloadFromInfo` are network calls into a
  library and are not modelled. Their results are parameters: `fetched` for `getInfo`, and
  the title for `info.videoDetails.title`. The "Invalid YouTube URL" check and its rewrite in
  `downloadVideo` are left out with them.
- `ytdl.chooseFormat(info.formats, { quality: 'highest' })` is not modelled. It is a library
  call whose selection rules are not visible here, and it runs over the unfiltered format
  list. `SelectFormat` takes its answer as the parameter `library`; `None` means it threw and
  the manual fallback ran. The guarantees of `SelectedFormatIsCandidate` therefore cover only
  the fallback.
- The default `quality = 'highest'` of `getVideoInfo` and `downloadVideo` is not modelled: the
  quality is always passed explicitly.
- The streaming part of `downloadVideo` is event-driven I/O and is not modelled: `pipe`, the
  `data`/`error`/`finish` handlers, stream destruction and `fs.remove`.
- The progress bar and the floating-point progress estimate are left out as display only.
- `fs.pathExists`, `path.resolve`, and the directory listing and deletions of
  `cleanupPlayerScripts` are file-system I/O and are not modelled. Only the name pattern at
  line 28 is modelled.
- `bin/ytmp4.js` is command-line plumbing and is not part of this model.
- A format's `height` is an integer or missing. `parseInt` of a fractional or exponent-form
  number (`720.5`, `1e21`) is not modelled.
- `parseInt` results are unbounded integers. The model drops the loss of precision above
  2^53, and `-0` is the same as `0`.
- Sanitize: does not model UTF-16. Strings here are sequences of Unicode scalar values,
  whereas JavaScript strings are UTF-16 code units. `substring(0, 200)` counts code units,
  so a character outside the Basic Multilingual Plane counts twice and can be cut in half.
  `Sanitize` counts characters: a title of 150 emoji keeps 100 of them (the first 200 code
  units) in the source but all 150 in the model. `MaxNameLength` and every length bound
  stated here are in characters.
- `OutputFileName`: JavaScript's `if (output)` accepts any truthy value. The model takes
  `output` as an optional string, so a non-string `output` is not modelled.
- The catch block reads `error.message`. An error without a message, or a thrown non-Error
  value, is not modelled.
- The catch block of `downloadVideo` (`src/downloader.js:235-244`) is not modelled. It runs
  the player-script cleanup, a file-system operation, and rewrites the "Invalid YouTube URL"
  error of the URL check, which is left out above.
- `QualityReportedAsPrivateVideo` is the only lemma about the rewrite of the selection's own
  errors. Other quality strings that `parseInt` rejects and that contain one of the five
  texts are misreported too, each as the failure of the first text that matches. A quality
  that `parseInt` accepts, such as `"1080 Private video"`, throws nothing and is not
  affected.

## Findings

| source | as written | input that shows it | evidently intended | confidence | as-written member | corrected member |
|---|---|---|---|---|---|---|
| src/downloader.js:93-122 | the catch block of `getVideoInfo` rewrites every error thrown in its `try`, including the selection's own "Invalid quality option: <quality>…", whose text quotes the user's quality | quality `"Private video"` with any list that has a video entry: reported as "This video is private and cannot be downloaded" | only the errors of `ytdl.getInfo` are translated; an unreadable quality is reported as an invalid quality option | high (not executed) | FormatSelection.QualityReportedAsPrivateVideo | FormatSelection.IntendedReportsInvalidQuality |
