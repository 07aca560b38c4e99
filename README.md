# YTDownload-Web: a verified model of the request helpers

YTDownload-Web is a small web front end for yt-dlp. The page asks the server
for a video's metadata (`POST /api/info`), offers the renditions it found, and
then downloads the chosen one as a stream (`GET /api/download-stream`). This
project models in Dafny the logic that decides what is offered and what is
streamed, and proves what that logic promises:

- `text.dfy`: the JavaScript string built-ins the helpers rely on: the `\s`
  white-space class and `trim`, ASCII lower-casing, `includes`, `String(n)`,
  `Number.parseInt(s, 10)` and `padStart`. It also holds `SplitOn`, which
  the server never calls: the proofs use it to read a format selector's
  `/`-separated alternatives.
- `renditions.dfy`: `extractFormats`, an imperative loop with a seen-set that
  is proved equal to a specification (filter, first label wins, stable sort by
  descending height, audio-only entry appended).
- `cache.dfy`: the metadata cache, a class over a map with lazy expiry; the
  clock is a parameter.
- `filenames.dfy`: `sanitizeFileName`.
- `config.dfy`: the start-up configuration, `resolveYtDlpBinaryPath` (file
  existence and platform as parameters) and `withAuthFlags`.
- `hosts.dfy`: the host-name test of `isValidYouTubeUrl`.
- `duration.dfy`: the server's `formatDuration`, with a reader for its output.
- `errors.dfy`: how a failed metadata fetch is turned into a 403, 500 or 400.
- `download.dfy`: how the `format` parameter becomes a yt-dlp format
  selector, a content type and a file name.
- `client.dfy`: the page's `formatDuration` and the `<option>` for each
  rendition, tied end to end to the download plan.

The environment values read at start-up (`TARGET_HEIGHT`,
`YTDLP_CONCURRENT_FRAGMENTS`, `YT_DLP_PATH`, `YT_DLP_COOKIES`,
`YT_DLP_COOKIES_FROM_BROWSER`) are a `Config` value passed to the functions
that use them. `Date.now()` is the parameter `now`. `fs.existsSync` is the
parameter `bundledExists`, and `process.platform` is the parameter `platform`.
The JavaScript property `label` of a rendition is the Dafny field `caption`,
because `label` is a Dafny keyword.

## Model

| member | source | states |
|---|---|---|
| Renditions.ExtractFormats | server.js:97-120 | The loop with its seen-set of labels returns exactly the specified list: usable records, first occurrence of each label, sorted by descending height, then the audio-only entry. |
| Renditions.CandidatesShape | server.js:101-114 | The collected entries are all video entries, have pairwise distinct heights, and their heights are exactly the heights of the usable records. |
| Renditions.InsertByHeight | server.js:116 | Inserting into a list sorted by descending height keeps it sorted and is a permutation of the list plus the new entry. |
| Renditions.SortByHeightDesc | server.js:116 | The sort's result is ordered by non-increasing height and is a permutation of its input. |
| Renditions.SortStrict | server.js:116 | Sorting entries with distinct heights gives a strictly decreasing order. |
| Renditions.VideosShape | server.js:101-116 | The sorted video part holds one video entry per usable height, in strictly decreasing order. |
| Renditions.FormatsEndWithAudioOnly | server.js:116-117 | The list is never empty, even for no input. Its last entry is `Audio Only`/0/`audio`, and every entry before it has a positive height. |
| Renditions.FormatsVideoEntries | server.js:101-113 | Every entry before the last has label `<h>p`, ext `mp4` and a positive height taken from a record whose codec is not `none`. Every such height is offered. |
| Renditions.FormatsOrderedAndDistinct | server.js:109-117 | Video heights strictly decrease, and all labels, the audio one included, are pairwise distinct. |
| Renditions.HeightLabelInjective | server.js:109-110 | Two heights share a `<h>p` label only if they are equal, so deduplicating by label is deduplicating by height. |
| Renditions.ExampleLabels | server.js:109 | The labels of heights 1080 and 480 are `1080p` and `480p`. |
| Renditions.WorkedExample | server.js:97-120 | Any list shaped like [1080/avc1, 1080/avc1, 720/none, 480/avc1] gives the two video entries, highest first, then Audio Only. The heights hi > lo > 0, the codec and the dropped record's height are arbitrary. The repeated record is kept once and the record with codec `none` is dropped. |
| InfoCache.Cache.constructor | server.js:15 | The cache starts empty. |
| InfoCache.Cache.Get | server.js:80-88 | A read returns the payload and leaves the map alone when the entry is live. It returns nothing and removes the key when the entry has expired. It returns nothing and changes nothing when the key is absent. |
| InfoCache.Cache.Set | server.js:90-95 | A write stores the payload under its URL with expiry `now` + 15 minutes. |
| InfoCache.LookupNeverReturnsExpired | server.js:81-87 | A read returns a payload if and only if the key is present and `now` is not past its expiry, and then it returns that entry's payload. |
| InfoCache.LookupTouchesOnlyItsKey | server.js:81-86 | A read changes no other key and adds no key. It keeps its own key exactly when the entry is live, and it leaves the map unchanged when the key is absent. |
| InfoCache.ReadWithinTtl | server.js:83-95 | After a write at t, a read of that URL at any time up to t + 15 minutes returns the payload and leaves the map as the write left it. |
| InfoCache.ReadAfterTtl | server.js:83-95 | After a write at t, a read later than t + 15 minutes returns nothing and leaves the map as it was before the write, minus that URL. |
| InfoCache.WriteIsolated | server.js:80-95 | A write to one URL does not change what a read of another URL returns. |
| FileNames.StripForbidden | server.js:67 | The result has none of `<>:"/\|?*` and no control character below U+0020. It keeps only characters of the input, and it leaves a string without such characters unchanged. |
| FileNames.StripForbiddenCharwise | server.js:67 | Stripping a joined string gives the stripped pieces joined, and a single character is dropped exactly when it is forbidden. So every permitted character is kept, in its order, and nothing else is removed. |
| FileNames.CollapseWhitespace | server.js:68 | No two white-space characters are adjacent in the result. It keeps the absence of forbidden characters, it is empty only for an empty input, and it keeps a first character that is not white space. |
| FileNames.CollapseKeepsText | server.js:68 | The input and the result hold the same characters other than white space, in the same order. |
| FileNames.CollapseLeavesSpaces | server.js:68 | The only white space left in the result is the plain space. |
| FileNames.CollapseRun | server.js:68 | A run of white space of any length, up to the next other character, becomes exactly one space. |
| FileNames.CollapseSplit | server.js:68 | Cut after a character that is not white space, the two sides collapse independently, so runs never merge across the cut. |
| FileNames.Clean | server.js:66-70 | After strip, collapse, trim and slice, the result has at most 100 characters, none forbidden, no doubled white space and no leading white space. A result shorter than 100 characters does not end in white space either. |
| FileNames.CleanKeepsText | server.js:66-70 | The cleaned text holds the title's permitted characters other than white space, in order. Only the 100-character cut can shorten it, and it keeps all of them when the result is shorter than 100. Its white space is plain spaces. It is empty exactly when the title had nothing but white space and forbidden characters. |
| FileNames.Title | server.js:66 | A missing or empty title counts as `video`. Any other title is used as it is. |
| FileNames.SanitizeFileName | server.js:65-71 | The name is the cleaned title when cleaning leaves something. It falls back to `video` exactly when the title holds nothing but white space and forbidden characters. A missing title, or one that cleans to `video`, also gives `video`, through the cleaned title. It is never empty, is at most 100 characters long, has no forbidden or control character, and never has two white-space characters in a row. It has no white space other than plain spaces and never starts with white space. Below 100 characters it never ends with white space. |
| FileNames.CutCanEndInSpace | server.js:69-70 | The 100-character slice comes after the trim. So a clean text longer than 100 characters, with a space at position 100, cleans to its first 100 characters, which end in that space. |
| FileNames.CleanNameUnchanged | server.js:65-71 | A title that is already a clean name (1 to 100 characters, single inner spaces, nothing forbidden, no white space at either end) is used unchanged. |
| FileNames.MissingTitleGivesVideo | server.js:66 | A missing or empty title gives `video`. |
| FileNames.DefaultNameIsClean | server.js:70 | The fallback `video` is itself a clean name. |
| ServerConfig.ResolveYtDlpBinaryPath | server.js:17-35 | A configured path wins. Otherwise the bundled copy (under the server's directory, ending in the platform's executable name) is used if it exists. Otherwise the bare executable name is used. The path is never empty. |
| ServerConfig.WithAuthFlags | server.js:40-50 | Every base option other than the two credential keys is copied unchanged. A cookie file sets `cookies` and leaves `cookiesFromBrowser` as in the base. A browser sets `cookiesFromBrowser` only when there is no cookie file. With neither configured, the options are the base. |
| ServerConfig.AuthFlagsKeys | server.js:40-50 | The key set grows by exactly the one credential key that was set, or by none. |
| ServerConfig.CookieFileWins | server.js:43-47 | With both configured, `cookies` is set and no `cookiesFromBrowser` is added. |
| Hosts.IsAllowedHost | server.js:58-59 | A host is accepted if and only if its lower-cased form contains `youtube.com` or `youtu.be` somewhere. |
| Hosts.IsValidYouTubeUrl | server.js:55-63 | A URL is accepted if and only if it parses and its host is accepted. A URL that fails to parse is rejected, never an error. |
| Hosts.AllowedHostIgnoresCase | server.js:58 | A host and its lower-case form are judged alike. |
| Hosts.HostWithAllowedDomainAccepted | server.js:59 | Any host holding one of the two domains, in any letter case and at any position, is accepted, including `youtube.com.example.net`. |
| Hosts.AcceptedIffDomainInside | server.js:58-59 | A host is accepted if and only if some piece of it spells `youtube.com` or `youtu.be` in some letter case, so a host without either domain is rejected. |
| Text.ContainsIff | server.js:59 | The left-to-right `includes` search succeeds if and only if the piece occurs at some position. |
| Text.Trim | server.js:69 | The result of `trim` is the piece of its input that remains after the white space at both ends is dropped. Everything dropped is white space, and the result neither starts nor ends with white space. |
| Text.ParseInt | server.js:206 | Text that is empty after its leading white space, or that starts with anything other than a digit or a sign, gives NaN (None). A negative result needs a leading `-`. |
| Text.ReadSigned | server.js:206 | After the leading white space is gone: empty text, or text whose first character is neither a digit nor a sign, gives NaN (None). A negative result needs a leading `-`. |
| Text.ParseIntOfSignedNumeral | server.js:206 | Leading white space, then an optional `+` or `-`, then the numeral of n, then anything that does not start with a digit, reads as n. With a `-` it reads as -n (` 720`, `+720p` and `-720` read as 720, 720 and -720). |
| Text.ParseIntWithoutDigits | server.js:206 | A sign that no digit follows reads as NaN. So does text whose first character after its leading white space is neither a digit nor a sign. |
| Text.ParseIntOfNumeral | server.js:206 | Reading back the decimal numeral of n, followed by anything that does not start with a digit, gives n. |
| Duration.FormatDuration | server.js:73-78 | The label is `m:ss`: minute digits, a colon and two digits of seconds. A non-finite value gets the label of 0 seconds. Duration.FormatParseRoundTrip shows that the label reads back as the seconds. |
| Duration.TwoDigits | server.js:77 | The seconds part is exactly two decimal digits. |
| Duration.TwoDigitsValue | server.js:77 | The two digits read back as the seconds. |
| Duration.TwoDigitsLayout | server.js:77 | The two digits are the tens and the units of the seconds, zero-padded. |
| Duration.Clock | server.js:75-77 | The label is at least one digit of minutes, a colon and two digits of seconds. |
| Duration.FormatParseRoundTrip | server.js:73-78 | Reading the label back gives the number of seconds it was made from, so no two durations share a label. |
| Duration.NotFiniteIsZero | server.js:74 | A non-finite value is shown as 0 seconds, `0:00`. |
| Duration.UnderTenMinutesLayout | server.js:73-78 | Under ten minutes the label is the minute digit, a colon, the tens of the seconds and the units of the seconds (125 gives `2:05`, 59 gives `0:59`). |
| InfoErrors.ErrorMessage | server.js:158 | The text is the first non-empty of standard error, short message and message, else `Failed to fetch video info`. It is never empty. |
| InfoErrors.ClassifyError | server.js:159-173 | 403 with the blocked message if and only if the lower-cased text contains `sign in to confirm`. Otherwise 500 with the missing-binary message if and only if the text contains `ENOENT` or `spawn`. Otherwise 400 carrying the text itself. |
| InfoErrors.InfoErrorReply | server.js:158-173 | A failed fetch gets 400, 403 or 500 with a non-empty error text. It gets 403 exactly when the error's text asks for a sign-in, and 500 exactly when it does not but reports a missing executable. A 400 carries the error's text. |
| InfoErrors.ReplyIsOneOfThree | server.js:158-173 | Every failure gets one of 400, 403 and 500, with a non-empty error text. |
| InfoErrors.BotCheckWins | server.js:159-165 | A text holding the sign-in phrase in any letter case gets 403, whatever else (`ENOENT`, `spawn`) it holds. |
| InfoErrors.NotFoundGivesServerError | server.js:160-171 | A text holding `ENOENT` gets 500 unless it also holds the sign-in phrase. |
| InfoErrors.SpawnGivesServerError | server.js:160-171 | A text holding `spawn` gets 500 unless it also holds the sign-in phrase. |
| InfoErrors.LowerCaseNotFoundIsClientError | server.js:160 | `ENOENT` is matched with its letter case, so `enoent` alone gets 400. |
| InfoErrors.UnmarkedTextIsClientError | server.js:159-173 | A text without `g`/`G`, `E` and `w` cannot hold any marker and gets 400 with the text itself. |
| InfoErrors.NoTextGivesFallback | server.js:158 | An error object with no text gets 400 with `Failed to fetch video info`. |
| DownloadPlan.RequestedFormat | server.js:179 | A non-empty `format` parameter is used as it is. A missing or empty one becomes the default height written in decimal, which parses back to that height. |
| DownloadPlan.SelectedHeight | server.js:206-207 | The parsed `format` is used if it is a positive number, and the default height otherwise. |
| DownloadPlan.DownloadFlags | server.js:193-202 | The options are exactly the selector, output `-`, no warnings, no playlist, 3 retries, 3 fragment retries, 1 extractor retry and the configured fragment concurrency. Then comes the configured cookie file as `cookies`, or failing that the configured browser as `cookiesFromBrowser`, or no credential. No other option is passed. |
| DownloadPlan.PlanDownload | server.js:192-221 | `audio` gives `audio/mp4`, `<safe title>.m4a` and the m4a audio selector. Anything else gives `video/mp4`, `<safe title>-<h>p.mp4` and the video selector for the selected height h. |
| DownloadPlan.HandleDownload | server.js:178-185 | An empty trimmed `url` or a host that is not allowed gives 400 `Please provide a valid YouTube URL.`. Otherwise the plan for the requested format is streamed. |
| DownloadPlan.SelectorShape | server.js:210 | The video selector splits at `/` into exactly three alternatives: mp4 with sound up to h, any container with sound up to h, and `best`. |
| DownloadPlan.AlternativesBoundHeight | server.js:210 | The first two alternatives each start with `best[height<=h]`. |
| DownloadPlan.DefaultFormatUsesTarget | server.js:179-207 | Without a `format` parameter the default height is selected. |
| DownloadPlan.NumeralSelectsHeight | server.js:206-207 | A positive height in decimal selects exactly that height, whatever non-digit text follows (`720p` selects 720). |
| DownloadPlan.NonPositiveFallsBack | server.js:207 | Zero, a negative number, or text with no leading number selects the default height. |
| DownloadPlan.SignedNumeralSelectsHeight | server.js:206-207 | A `format` of white space, an optional sign, the numeral of n and then a non-digit selects n. It selects the default height when the sign is `-` or n is 0. |
| DownloadPlan.NoNumeralFallsBack | server.js:206-207 | A `format` in which no digit follows the leading white space and sign selects the default height. |
| DownloadPlan.FileNameIsSafe | server.js:186-220 | The download's file name holds no forbidden character and is longer than its extension. |
| DownloadPlan.NumeralHasNoSlash | server.js:210 | A decimal height contains no `/`, so the selector's alternatives cannot be split inside a height. |
| ClientView.FormatDuration | public/app.js:13-19 | A string is shown unchanged. 0 and undefined show nothing. A positive number of seconds shows a label that reads back as that number. |
| ClientView.PageMatchesServer | public/app.js:16-18 | For a positive number of seconds the page writes the same label as the server's `formatDuration`. |
| ClientView.ZeroDiffers | public/app.js:15 | For 0 the page shows nothing while the server writes a non-empty label. |
| ClientView.OptionFor | public/app.js:60-61 | The option's text is the rendition's label. |
| ClientView.AudioOptionSelectsAudio | public/app.js:60 | The audio-only entry's option value is `audio`, the value that selects the server's audio branch. |
| ClientView.VideoOptionRoundTrips | public/app.js:60 | A video entry's option value is not `audio`, and the server's height parse reads it back as exactly the entry's height. |
| ClientView.VideoOptionPlan | public/app.js:60 | Choosing the video entry of height h streams `video/mp4` with the selector for h, saved as `<safe title>-<label>.mp4`. |
| ClientView.OptionSelectsRendition | public/app.js:58-63 | Choosing the i-th offered entry downloads what it names: the last entry is the audio stream, and any other is the video stream up to its height, saved under its label. |
| ClientView.OptionValuesDistinct | public/app.js:58-63 | The option values of one list are pairwise distinct, so a chosen value names one entry. |

## Left out

- Express routing, JSON body parsing, static files, the `/health` route and the listener (server.js:52-53, 146-157, 253-264) are framework plumbing. The URL check of `/api/info` (server.js:148-152) is the same test as `DownloadPlan.HandleDownload`.
- `getVideoInfo` (server.js:122-144) is not modelled. It calls yt-dlp and builds the payload from the tool's JSON. The cache it uses and the `formatDuration`/`extractFormats` it calls are modelled. The title handed to the download plan is a parameter.
- Spawning yt-dlp, relaying its output, the `Content-Disposition` header with `encodeURIComponent` (RFC 5987 section 3.2), and killing the child on disconnect (server.js:223-250) are process I/O and asynchronous lifecycle.
- The WHATWG URL parser is not modelled. `isValidYouTubeUrl` receives the host name the parser produced, or None when it throws.
- Reading the environment is not modelled; the values are a `Config`. A `TARGET_HEIGHT` or `YTDLP_CONCURRENT_FRAGMENTS` that does not parse (NaN in JavaScript) is not represented: `targetHeight` is a natural number.
- `path.join` normalisation is not modelled: the bundled path is the parts joined with the platform separator.
- JavaScript numbers are not modelled as floating point. Heights and durations are integers, and a non-finite height or duration is None or `NotFinite`. Fractional durations and heights are left out, and so are negative durations and `parseInt` of numerals too large for a double.
- Renditions.ExtractFormats: the JavaScript `label` `${height}p` is computed for integer heights only. A fractional height would print as, e.g., `720.5p`.
- `sanitizeFileName` counts the 100-character cap in Unicode scalar values, where JavaScript counts UTF-16 code units. This differs only for characters outside the Basic Multilingual Plane.
- Lower-casing is ASCII only. For the phrases searched here (`sign in to confirm`, `youtube.com`, `youtu.be`) this is exact: the only non-ASCII characters that lower-case into ASCII letters are U+212A (to `k`) and U+0130 (to `i` plus a combining dot). Neither can complete these phrases, since the phrases contain no `k` and the dot would follow the `i`.
- `req.query.format` given as a repeated parameter (an array in Express) is not modelled; the parameter is a single string or absent.
- ClientView.FormatDuration: the number argument is a natural number. Negative and fractional seconds are left out, and so are `null`, `NaN` and `false`, which are falsy like `undefined`.
- The page's DOM and `fetch` code (`showError`, the body of `fetchInfo`, `startDownload`) is UI.
