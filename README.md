# youtube-channel-scraper: a verified model of the parsing and configuration core

This project models the logic of the YouTube channel scraper. The scraper
loads a channel page or a keyword search in a headless browser, collects
video links, scrapes each video and channel, and prints JSON records. The
browser, the network and the file system are not modelled. What is
modelled is the code that decides what ends up in those records and which
configuration a run uses:

- `data_formatter.dfy` (module `DataFormatter`): `parseHumanNumber`,
  which turns "27.2M subscribers" or "7,569,331,655 views" into a count.
  Also `normalizeString` and `formatVideoObject`, including the copying of
  the channel's `links` object.
- `youtube_parser.dfy` (module `YoutubeParser`), the pure parts of the
  scraper:
  - `extractVideoId`;
  - the de-duplicating, capped link loop shared by `getChannelVideoLinks`
    and `getSearchVideoLinks`;
  - the classification of the channel's "about" statistics and the
    building of its `links` object;
  - the validation and clamping done by `scrapeYoutube`.
- `main_config.dfy` (module `MainConfig`): the command line front end's
  `buildConfig`. It reads an optional input file, removes undefined
  options, merges defaults < file < command line, and checks the mode.
- Supporting modules model the JavaScript semantics the code relies on:
  - `JsValue`: values, truthiness, `||`, `String()`, `ToNumber`;
  - `JsString`: `trim`, `\s`, `\d`, case-insensitive matching;
  - `JsObject`: objects as ordered key/value lists, with own-property
    assignment and the `__proto__` rule;
  - `ConfigRules`: configuration maps, object spread and the mode guards
    that `buildConfig` and `scrapeYoutube` share;
  - `Wrappers`: `Option` and `Result`.

JavaScript values are a datatype: undefined, null, booleans, integers, NaN
and strings. Number parsing uses exact decimal arithmetic. Objects whose
key order shows in the output, such as `links`, are sequences of pairs in
enumeration order. Configuration objects are maps. Loops in the source are
methods with loop invariants. Each method is proved equal to a
specification function, and the properties are stated as lemmas about that
function.

## Model

| member | source | states |
|---|---|---|
| DataFormatter.StripWord | src/helpers/data_formatter.js:16-17 | removing a case-insensitive word (with an optional trailing s) never lengthens the text |
| DataFormatter.KeepCountChars | src/helpers/data_formatter.js:18 | only digits, '.', ',' and K M G B k m b survive the character filter |
| DataFormatter.RemoveCommas | src/helpers/data_formatter.js:19 | no comma is left, and every other character is kept |
| DataFormatter.Clean | src/helpers/data_formatter.js:15-20 | the cleaned text holds only count characters and no comma, so the final trim has nothing to do |
| DataFormatter.CleanKeepsCleanText | src/helpers/data_formatter.js:15-20 | text already in cleaned form passes the whole cleaning unchanged |
| DataFormatter.StripWordsKeepCountText | src/helpers/data_formatter.js:16-17 | neither word replacement touches count text |
| DataFormatter.CleanOfCountText | src/helpers/data_formatter.js:15-20 | on count text the cleaning only drops the commas |
| DataFormatter.StrictMatch | src/helpers/data_formatter.js:24 | a match is a numeral optionally followed by one K/M/B letter and nothing else; no match means the text has neither shape |
| DataFormatter.StrictMatchWithUnit | src/helpers/data_formatter.js:24 | every numeral with an optional unit letter matches, giving back that numeral and letter |
| DataFormatter.ParseFloatPrefix | src/helpers/data_formatter.js:30 | parseFloat is NaN exactly when the numeral starts neither with a digit nor with '.' and then a digit |
| DataFormatter.ParseFloatOfDigits | src/helpers/data_formatter.js:30 | parseFloat of a digit string is its integer value |
| DataFormatter.ParseFloatOfDecimal | src/helpers/data_formatter.js:30 | parseFloat of "ip.fp" is the digits of ip and fp read as one integer over 10^abs(fp) |
| DataFormatter.ScaleWithoutUnit | src/helpers/data_formatter.js:31-35 | without a unit letter the value is not multiplied |
| DataFormatter.RoundHalfUpIsNearest | src/helpers/data_formatter.js:37 | Math.round gives the integer nearest the exact value, with halves rounded up |
| DataFormatter.ParseCleaned | src/helpers/data_formatter.js:22-37 | the result is null, NaN or a non-negative integer, and empty cleaned text gives null |
| DataFormatter.ParseHumanNumber | src/helpers/data_formatter.js:8-38 | null or undefined input, or input that trims to nothing, gives null; any result is null, NaN or a non-negative integer |
| DataFormatter.ParseHumanNumberReadsCleanedText | src/helpers/data_formatter.js:9-22 | the two early returns agree with the later emptiness test, so the result depends only on the cleaned text |
| DataFormatter.ParseOfCleanText | src/helpers/data_formatter.js:15-22 | text already in cleaned form is parsed as it is |
| DataFormatter.ParseOfTrimmedText | src/helpers/data_formatter.js:11-20 | text with nothing to trim goes straight to the cleaning |
| DataFormatter.ParseCleanedIsNull | src/helpers/data_formatter.js:22-28 | null exactly when the cleaned text is empty, or fails the pattern and parseInt finds no leading digit |
| DataFormatter.ParseCleanedIsNaN | src/helpers/data_formatter.js:24-37 | NaN exactly when the text matches the pattern but parseFloat finds no number (".", "..", ".K") |
| DataFormatter.ParseHumanNumberIsNull | src/helpers/data_formatter.js:8-38 | both directions of when parseHumanNumber returns null, in terms of the input |
| DataFormatter.ParseHumanNumberIsNaN | src/helpers/data_formatter.js:8-38 | both directions of when parseHumanNumber returns NaN, in terms of the cleaned text |
| DataFormatter.ParsesIntegerWithUnit | src/helpers/data_formatter.js:24-37 | a digit string with an optional K/M/B is its value times 10^3, 10^6 or 10^9 |
| DataFormatter.ParsesDecimalWithUnit | src/helpers/data_formatter.js:24-37 | "ip.fp" with an optional unit is the exact value times the multiplier, rounded half up ("1.4K" is 1400) |
| DataFormatter.GSuffixIsNotMultiplied | src/helpers/data_formatter.js:18-27 | a G survives the cleaning but fails the pattern, so "12G" parses as 12 through parseInt |
| DataFormatter.GSuffixFailsStrictMatch | src/helpers/data_formatter.js:18-24 | digits followed by G are cleaned text that the strict pattern refuses |
| DataFormatter.ThousandsSeparatorsIgnored | src/helpers/data_formatter.js:19-27 | digits grouped by commas parse as the digits alone ("7,569,331,655") |
| DataFormatter.CountWordStripped | src/helpers/data_formatter.js:16-17 | of a space and "view" or "subscriber" in any letter case, with or without an s or S, only the space survives the two case-insensitive replacements |
| DataFormatter.StripWholeWord | src/helpers/data_formatter.js:16-17 | a replacement removes its word written in any letter case, together with a following s or S |
| DataFormatter.StripWordsOfCountWord | src/helpers/data_formatter.js:16-17 | count text followed by a count word in any letter case loses the word and keeps a space |
| DataFormatter.CleanIgnoresCountWord | src/helpers/data_formatter.js:15-20 | the cleaning removes a count word, in any letter case, that follows count text |
| DataFormatter.WordSuffixIgnored | src/helpers/data_formatter.js:14-20 | appending " view", " Views", " SUBSCRIBERS" (either word, any letter case, optional s) to a count does not change what it parses to |
| DataFormatter.NormalizeString | src/helpers/data_formatter.js:43-47 | null exactly for null, undefined or blank text; otherwise the trimmed text, which is never empty |
| DataFormatter.NormalizeStringIdempotent | src/helpers/data_formatter.js:43-47 | normalising a normalised string gives it back |
| DataFormatter.NormalizedStringStable | src/helpers/data_formatter.js:43-47 | a normalised string, or its null, written back and normalised again stays the same |
| DataFormatter.CountFieldStable | src/helpers/data_formatter.js:62-65 | a count written back as the numeric field, with no text, is kept as it is |
| DataFormatter.CopiedLinks | src/helpers/data_formatter.js:99-104 | the copied links have distinct labels and non-empty values, and no `__proto__` entry |
| DataFormatter.CopiedLinksAreTruthyLinks | src/helpers/data_formatter.js:99-104 | for an object's entries, the copying loop equals the reference filter: the truthy hrefs as strings, in order |
| DataFormatter.CopyTruthyLinks | src/helpers/data_formatter.js:99-104 | the forEach loop computes exactly the copied links, and for distinct labels the truthy entries in order |
| DataFormatter.CanonicalLinksCopied | src/helpers/data_formatter.js:99-104 | links already in output form are copied unchanged |
| DataFormatter.FormatVideo | src/helpers/data_formatter.js:52-107 | fails exactly when the record or its videoUrl is falsy; otherwise every text field, top-level and in channelInfo, is the normalised raw field (so never blank), each count is its numeric field when that is not null/undefined and else the parsed text field, amountOfVideos is kept only when it is a number and else null, channelInfo is present exactly when given, and its links are the copied truthy entries (none without a links object), with distinct labels and non-empty values |
| DataFormatter.FormatVideoLinks | src/helpers/data_formatter.js:99-103 | when the raw links are an object, the formatted links are exactly its entries with a truthy href, as strings, in order |
| DataFormatter.FormatVideoObject | src/helpers/data_formatter.js:52-113 | the statement-by-statement procedure returns exactly the specified record or error |
| DataFormatter.MinimalRecords | src/helpers/data_formatter.js:53-86 | an empty record throws; a record with only a URL gets every other field null |
| DataFormatter.NumericCountIgnoresText | src/helpers/data_formatter.js:62-78 | while a numeric count is present, its text variant does not affect the output |
| DataFormatter.TextCountIsParsed | src/helpers/data_formatter.js:62-78 | without a numeric count, each count is parseHumanNumber of its text |
| DataFormatter.FormatChannelInfoIdempotent | src/helpers/data_formatter.js:88-104 | formatting an already formatted channelInfo gives it back |
| DataFormatter.FormattedLinksStable | src/helpers/data_formatter.js:99-104 | formatted links, written back as raw links, are copied unchanged |
| DataFormatter.FormatFieldsIdempotent | src/helpers/data_formatter.js:57-86 | applying the field rules to their own output changes nothing |
| DataFormatter.FormatVideoIdempotent | src/helpers/data_formatter.js:52-107 | formatting a formatted record, once its videoUrl survived, gives it back |
| DataFormatter.WhitespaceUrlIsNotStable | src/helpers/data_formatter.js:53-60 | a blank videoUrl passes the guard, comes out null, and the output no longer passes the guard |
| JsString.Trim | src/helpers/data_formatter.js:11 | trim leaves no white space at either end and is empty exactly for all-blank text |
| JsString.TrimIdempotent | src/helpers/data_formatter.js:45 | trimming twice is trimming once |
| JsValue.ToJsString | src/helpers/data_formatter.js:45 | String(v) is empty only for the empty string |
| JsValue.Or | src/scraper/youtube_parser.js:386 | `a \|\| b` is a when a is truthy and b otherwise |
| JsObject.Own | src/scraper/youtube_parser.js:265 | a key's own value exists exactly when the key is among the object's keys |
| JsObject.SetOwn | src/scraper/youtube_parser.js:266 | assignment replaces the value in place or appends a new key last; other keys are untouched and distinct keys stay distinct |
| JsObject.Assign | src/helpers/data_formatter.js:102 | assigning under `__proto__` leaves the object as it is; any other key is set as an own property |
| YoutubeParser.QueryGet | src/scraper/youtube_parser.js:16-17 | no value exactly when no parameter has the name (`has` is false); otherwise a value given for that name |
| YoutubeParser.Split | src/scraper/youtube_parser.js:20 | split yields at least one piece and no piece holds the separator |
| YoutubeParser.JoinSplit | src/scraper/youtube_parser.js:20 | joining the pieces of a split gives the string back |
| YoutubeParser.NonEmptyElements | src/scraper/youtube_parser.js:20 | by membership, filter(Boolean) keeps every non-empty piece and nothing else |
| YoutubeParser.NonEmptyAppend | src/scraper/youtube_parser.js:20 | filter(Boolean) keeps the pieces' order: filtering a concatenation concatenates the filtered parts |
| YoutubeParser.Segments | src/scraper/youtube_parser.js:20 | the path's segments are non-empty and free of slashes |
| YoutubeParser.ExtractVideoId | src/scraper/youtube_parser.js:13-35 | null when the URL does not parse; the v parameter wins, even when empty; otherwise the id is a non-empty segment of the path, and null exactly when the path has none |
| YoutubeParser.SegmentsOfPath | src/scraper/youtube_parser.js:20 | a path built from clean segments splits back into those segments |
| YoutubeParser.WatchUrlId | src/scraper/youtube_parser.js:16-17 | for a watch URL the id is the first v parameter, whatever the path |
| YoutubeParser.ShortsAndEmbedId | src/scraper/youtube_parser.js:22-24 | /shorts/ID/... and /embed/ID/... give ID |
| YoutubeParser.LastSegmentId | src/scraper/youtube_parser.js:27-29 | any other path gives its last segment |
| YoutubeParser.FirstOccurrences | src/scraper/youtube_parser.js:323-327 | keeping each URL's first link never adds links |
| YoutubeParser.Limit | src/scraper/youtube_parser.js:329 | the loop never keeps more links than there are distinct URLs |
| YoutubeParser.LimitOfNumber | src/scraper/youtube_parser.js:329 | a cap of at least 1 keeps min(cap, distinct) links; a cap below 1 still lets one link through |
| YoutubeParser.UniqueVideoLinks | src/scraper/youtube_parser.js:320-332 | the loop (and its copy at lines 363-375) returns exactly the first occurrences, cut to the cap |
| YoutubeParser.UniqueLinksGuarantees | src/scraper/youtube_parser.js:320-332 | the result has distinct URLs, is a subsequence of the input, holds each URL's first link, and has as many links as the cap allows of the distinct URLs |
| YoutubeParser.FirstOccurrencesUrls | src/scraper/youtube_parser.js:323-327 | the first occurrences cover exactly the URLs not already seen |
| YoutubeParser.FirstOccurrencesDistinct | src/scraper/youtube_parser.js:323-327 | no URL is kept twice |
| YoutubeParser.FirstOccurrencesSubsequence | src/scraper/youtube_parser.js:323-327 | the kept links keep the input order |
| YoutubeParser.FirstOccurrencesAreFirst | src/scraper/youtube_parser.js:323-327 | each kept link is the first link with its URL |
| YoutubeParser.NaNCapKeepsAll | src/scraper/youtube_parser.js:329 | a cap that converts to NaN never stops the loop |
| YoutubeParser.ClassifyCases | src/scraper/youtube_parser.js:245-252 | a statistic is a join date exactly when it mentions "joined"; otherwise a view counter exactly when it mentions "views"; otherwise a country candidate exactly when it is letters and spaces, shorter than 40 |
| YoutubeParser.JoinedDate | src/scraper/youtube_parser.js:247 | the extracted date has nothing left to trim |
| YoutubeParser.JoinedDateOfWord | src/scraper/youtube_parser.js:247 | "Joined" and blanks in front of a date are removed, leaving the trimmed date |
| YoutubeParser.LastOfKindIsLast | src/scraper/youtube_parser.js:245-249 | the last statistic of a kind is returned, and nothing exactly when there is none |
| YoutubeParser.FirstOfKindIsFirst | src/scraper/youtube_parser.js:250-251 | the first country candidate is returned, and nothing exactly when there is none |
| YoutubeParser.Stats | src/scraper/youtube_parser.js:237-239 | the statistics are the trimmed texts, one for one |
| YoutubeParser.ScanStats | src/scraper/youtube_parser.js:241-253 | the forEach leaves the date of the last join statistic, the last view counter and the first country candidate |
| YoutubeParser.ClassifyStats | src/scraper/youtube_parser.js:237-253 | the same three results, for the trimmed texts |
| YoutubeParser.LinkLabel | src/scraper/youtube_parser.js:263 | a label is never empty |
| YoutubeParser.LinkLabelOfText | src/scraper/youtube_parser.js:263 | the label is the trimmed text, or "Link" when the text is blank |
| YoutubeParser.LinksAfterDistinct | src/scraper/youtube_parser.js:260-268 | the links object never holds a label twice |
| YoutubeParser.BuildLinks | src/scraper/youtube_parser.js:260-268 | the forEach computes exactly the specified links object |
| YoutubeParser.FirstNonEmptyHref | src/scraper/youtube_parser.js:262-268 | a found href is non-empty and comes from an anchor with that label |
| YoutubeParser.NoLabelNoHref | src/scraper/youtube_parser.js:262-268 | a label no anchor carries gets no href |
| YoutubeParser.LinksAfterStoresFirstHref | src/scraper/youtube_parser.js:262-268 | each label holds the first non-empty href of its anchors, or an empty one when all were empty; inherited names and unseen labels hold nothing |
| YoutubeParser.LinksAfterStoresNewHref | src/scraper/youtube_parser.js:265-266 | the label's entry is falsy exactly when no earlier anchor gave a non-empty href, and only then does the new anchor's href replace it |
| YoutubeParser.ClampMaxVideos | src/scraper/youtube_parser.js:470-479 | the clamped cap is truthy and not above 100 |
| YoutubeParser.ClampBounds | src/scraper/youtube_parser.js:470-479 | with a numeric request and a sane default, the cap lies in 1..100 |
| YoutubeParser.ClampKeepsValid | src/scraper/youtube_parser.js:470-479 | a request in 1..100 is kept |
| YoutubeParser.ClampCapsLarge | src/scraper/youtube_parser.js:474-479 | a request above 100 becomes 100 |
| YoutubeParser.ClampUsesFallback | src/scraper/youtube_parser.js:470-479 | a falsy or non-positive request becomes the default maxVideos when that is truthy (still capped at 100), else 10 |
| YoutubeParser.ClampKeepsNaN | src/scraper/youtube_parser.js:470-479 | a truthy request that converts to NaN passes both checks unchanged |
| YoutubeParser.ClampedScrapeVisitsAtMost100 | src/scraper/youtube_parser.js:470-479 | after clamping, the link loop keeps between 1 and 100 links unless there are none |
| YoutubeParser.PrepareScrape | src/scraper/youtube_parser.js:443-479 | the procedure returns exactly the specified configuration or mode error |
| YoutubeParser.ScrapeConfigChecks | src/scraper/youtube_parser.js:443-479 | fails exactly when the merged configuration is not runnable, with the guard's code; on success only maxVideos changes, to the clamped cap |
| YoutubeParser.EffectiveMaxVideos | src/scraper/youtube_parser.js:386 | a truthy configured maxVideos is used as it is |
| YoutubeParser.ClampedCapIsUsed | src/scraper/youtube_parser.js:419 | after a successful validation, the scraping loop gets the clamped cap |
| ConfigRules.Get | src/main.js:47-51 | an absent key reads as undefined |
| ConfigRules.Spread | src/main.js:47-51 | every own key of the later object wins, undefined values included, and the keys are the union |
| ConfigRules.CheckMode | src/main.js:53-63 | no problem exactly when runnable; each of the three errors exactly under its own condition |
| ConfigRules.CheckModeReadsThreeKeys | src/main.js:53-63 | the guards read only mode, channelUrl and keyword |
| MainConfig.CliConfig | src/main.js:30-38 | exactly the seven listed options, read from argv |
| MainConfig.Defined | src/main.js:40-45 | exactly the entries whose value is not undefined |
| MainConfig.RemoveUndefined | src/main.js:41-45 | the delete loop leaves exactly the defined entries |
| MainConfig.FileConfig | src/main.js:14-28 | without --input the file config is empty; with it, a parsed file gives its contents, and only a missing, unreadable or malformed file fails, each with its own error |
| MainConfig.BuildConfig | src/main.js:13-66 | file errors come first; then success exactly when the merged configuration is runnable, returning it, else the mode error |
| MainConfig.MergePrecedence | src/main.js:47-51 | per key: a given command-line option wins, then the input file, then the defaults |
| MainConfig.UndefinedNeverOverrides | src/main.js:40-51 | an option missing on the command line never hides the file's or default's value |
| MainConfig.OnlyListedOptionsMerge | src/main.js:30-51 | arguments other than the seven options never reach the configuration |
| MainConfig.InputIgnoredWithoutFlag | src/main.js:16 | without --input the file is never consulted |

## Left out

- Browser automation, page navigation, scrolling, DOM queries and
  `$$eval` are left out. The DOM's outputs (anchor texts and hrefs, the
  statistic texts, the list of links) are parameters.
- `fetchTranscript`, `scrapeVideoFromPage`, `scrapeChannelInfo`'s page
  loading, and logging (`logger.debug`, `logger.warn`) are left out. They
  are I/O with no effect on the modelled values.
- The `.filter((v) => v.url && v.url.includes('watch'))` applied inside
  the page is left out. The link loop is modelled on the list it returns.
- `new URL(videoUrl)` (WHATWG URL parsing) is left out: its outcome is a
  parameter (`None` when it throws, else the query pairs and pathname).
  Percent-decoding of query values is not modelled.
- Reading, resolving and JSON-parsing the input file in `buildConfig` are
  left out. Their four outcomes (missing path, a path `readFileSync`
  cannot read such as a directory, text that is not JSON, parsed object)
  are the `InputFile` parameter; the read error is one `InputUnreadable`
  whatever its code. A JSON file whose top level is not an object
  is not modelled.
- The contents of `config/defaults.json` are a parameter. The file is not
  part of this model.
- src/scraper/puppeteer_utils.js, src/helpers/error_handler.js,
  src/index.js, and the output writing and CLI wiring of src/main.js
  after `buildConfig` are not part of this model.
- ParseHumanNumber: IEEE-754 doubles are replaced by exact decimals. The
  product and `Math.round` are computed exactly, so results beyond 2^53,
  where doubles lose precision, are not modelled.
- JsValue.ToNumber: of strings, only blank text (0) and optionally
  signed decimal integers with blanks around them convert to numbers.
  Every other string converts to NaN. Fractions, exponents, hex and
  "Infinity" are not modelled, so a cap given as "2.5" behaves in the
  model like "abc".
- JsValue.ToJsString: numbers are written as plain decimal digits at
  every size. JavaScript's `String(n)` switches to exponent form from
  1e21 on (`String(1e21)` is "1e+21"), so for such huge counts the
  model's text, and any re-parse of it, differs from the source's.
- JsValue.Value: numbers are integers or NaN. Fractions, infinities and
  -0 are not modelled, and objects and arrays appear as field values only
  where the model names them (the `links` object, `channelInfo`).
- Object key order puts integer-like keys first in JavaScript. The model
  keeps insertion order for every key, so a link labelled "2024" is not
  moved ahead of the other labels.
- YoutubeParser.LinksAfter: reading a label that names an inherited
  member of Object.prototype ("constructor", "toString", ...) gives a
  truthy function, so no href is stored under it. The model encodes
  those names as a fixed set and does not model the prototype chain
  otherwise.
- DataFormatter.FormatVideoIdempotent requires that the formatted record
  kept its videoUrl. WhitespaceUrlIsNotStable shows why: a blank URL
  passes the guard but comes out null.

## Notes on the code

- The links builder (src/scraper/youtube_parser.js:265-266) tests
  `!links[label]`. A label first stored with an empty href is therefore
  overwritten by a later anchor with the same label. A label is kept
  unchanged only once it holds a non-empty href, not from its first
  anchor on. The model follows the code
  (`LinksAfterStoresFirstHref`, `LinksAfterStoresNewHref`).
- The count-character class in parseHumanNumber admits an upper-case G
  but not a lower-case g, and the strict pattern has no G unit, so "12G"
  parses as 12 (`GSuffixIsNotMultiplied`).
- A maxVideos that converts to NaN (for example "abc") passes both
  clamping checks in `scrapeYoutube` and never stops the link loop, so
  every distinct link is kept (`ClampKeepsNaN`, `NaNCapKeepsAll`).
- The link loop tests the cap after pushing, so a cap below 1 still
  yields one link when there is any (`LimitOfNumber`).
