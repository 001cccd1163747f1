# Web video downloader — verified core model

This project is a Dafny model of the deterministic decision and string
logic of a Python web video downloader, together with proofs about it. The
downloader analyses video URLs, categorises errors, records performance
metrics, rotates a NordVPN connection, and downloads videos with yt-dlp
under sanitised file names. The model covers two files. From
`utilities.py` it covers the URL analyser `VideoAnalyzer`, the error
categoriser `ErrorRecovery`, and the bounded history of
`PerformanceMonitor`. From `video_downloader.py` it covers these parts:

- `SiteConfig`'s selector conversion and the site-profile lookup;
- the `VPNManager` state machine;
- the safe output filename of `VideoExtractor`;
- the way `download_video` picks its result.

Modules:

- `Wrappers` (text.dfy) holds the `Option` type.
- `Text` (text.dfy) holds the Python string operations the core relies on:
  - ASCII `str.lower`, `\w` and `\s`;
  - substring search;
  - `str.endswith`;
  - `str.replace(p, "")`;
  - `str(int)` with its inverse.
- `Performance` (performance.dfy) holds `PerformanceMonitor`. It is a class
  whose `metricsHistory` field gains one record on each successful capture
  and is then trimmed to the last 1000 records; a failed sampling leaves
  it unchanged.
- `Analyzer` (analyzer.dfy) holds `VideoAnalyzer`:
  - domain normalisation;
  - the direct-video test;
  - the complexity and method classification;
  - `batch_analyze` and `generate_analysis_report`, which are loops.
- `Recovery` (recovery.dfy) holds `ErrorRecovery`. It covers the
  first-match categorisation and the recovery actions the tests pin down.
- `Config` (config.dfy) holds `SiteConfig`, `convert_strings_to_list` and
  `_get_site_config`.
- `Vpn` (vpn.dfy) holds `VPNManager`:
  - pure step functions give the specification;
  - a class with the mutable `currentServer` and `lastRotation` fields is
    proved against them.
- `Extractor` (extractor.dfy) holds `_get_safe_filename` and the
  result selection of `download_video`.

The model does not call the outside world. Everything the code gets from
outside arrives as a parameter:

- `urlparse`'s split of a URL, or the error it raised;
- a psutil reading, or its failure;
- the exit status of a `nordvpn` command;
- `random.choice`'s country and `random.randint`'s interval;
- the clock;
- what yt-dlp reports and the directory listing after a download.

Two behaviours of the code that a reader might not expect:

- The site-profile lookup substitutes no default profile. The code
  (`video_downloader.py:469-472`) returns `None` for a missing key and
  matches keys case-sensitively. See `Config.GetSiteConfig` and
  `Config.LookupIsCaseSensitive`.
- The filename test (`tests/test_video_downloader.py:250-255`) expects the
  title `Test Video: Special/Characters!` to give
  `Test-Video-Special-Characters`. The code's first substitution deletes
  `/` without leaving a separator, so the code gives
  `Test-Video-SpecialCharacters`. The model follows the code:
  `Extractor.DisallowedBetweenWordsIsDropped` proves that two words joined
  by any removed character come out glued together.

## Model

| member | source | states |
|---|---|---|
| Text.Lower | utilities.py:145 | `str.lower` on ASCII keeps the length and lower-cases each character in place |
| Text.LowerIdempotent | utilities.py:490 | lower-casing an already lower-cased string changes nothing |
| Text.Contains | utilities.py:493 | Python's `p in s` holds exactly when `p` occurs at some index of `s` |
| Text.RemoveAll | utilities.py:145 | `replace('www.', '')` never lengthens the string |
| Text.RemoveAllNoOccurrence | utilities.py:145 | a string in which the pattern occurs nowhere is left as it is |
| Text.RemoveAllFirst | utilities.py:145 | at the first occurrence of the pattern, the text before it is kept, the occurrence is dropped, and the removal goes on after it |
| Text.RemoveAllSkips | utilities.py:145 | a head in which no occurrence starts is kept unchanged, and only the rest is searched |
| Text.RemoveAllLeading | video_downloader.py:471 | removing `www.` from `"www." + d` gives what removing it from `d` gives |
| Text.NatToString | video_downloader.py:278 | `str(int(...))` of a non-negative number is a non-empty string of decimal digits with no leading zero |
| Text.NatToStringRoundTrip | video_downloader.py:278 | the decimal digits of a number read back as that number |
| Performance.FromReading | utilities.py:61-70 | a sampled record carries the capture time and the download count, copies the CPU, network and disk counters, and converts memory from bytes to MiB |
| Performance.ZeroMetrics | utilities.py:82-91 | the record of a failed sampling is the record of an all-zero reading, keeping the capture time and the download count |
| Performance.Bounded | utilities.py:75-76 | trimming keeps exactly the last min(length, 1000) entries |
| Performance.AppendedKeepsNewest | utilities.py:72-76 | after one capture the length is min(old + 1, 1000), the new record is last, and the rest are the most recent old records in order |
| Performance.BoundedAbsorbs | utilities.py:75-76 | trimming early and then appending more trims to the same history as trimming only at the end |
| Performance.CaptureAllKeepsMostRecent | utilities.py:72-76 | any run of captures from a valid history keeps exactly the last min(total, 1000) records of everything seen, in order |
| Performance.PerformanceMonitor.constructor | utilities.py:46-50 | a new monitor has an empty history and records its start time |
| Performance.PerformanceMonitor.CaptureMetrics | utilities.py:52-91 | a successful capture appends its record and keeps the last 1000; a failed sampling returns the zero record and leaves the history unchanged; the history never exceeds 1000 |
| Analyzer.NormalizeDomain | utilities.py:145 | the domain is never longer than the netloc, and a netloc whose lower-cased form holds no `www.` is simply lower-cased |
| Analyzer.IsDirectVideoPath | utilities.py:164-167 | a path is a direct video exactly when its lower-cased form ends with one of the eight extensions |
| Analyzer.DirectByExtension | utilities.py:164-167 | any path whose lower-cased form ends with one of the extensions is a direct video |
| Analyzer.EstimateComplexity | utilities.py:169-176 | low exactly for a direct video; medium exactly for a non-direct path on a streaming domain; high exactly for the rest |
| Analyzer.SuggestExtractionMethod | utilities.py:178-185 | direct download exactly for a direct video; yt-dlp exactly for a non-direct path on a streaming domain; browser automation exactly for the rest |
| Analyzer.EndsWithAny | utilities.py:166-167 | `any(path.endswith(ext) ...)` holds exactly when some extension ends the path |
| Analyzer.AnalyzeUrl | utilities.py:141-162 | each analysis carries the input URL, and it is the error form exactly when parsing raised |
| Analyzer.DirectVideoIgnoresCase | utilities.py:164-167 | a URL is a direct video exactly when its lower-cased path ends with one of the eight extensions, whatever the path's case |
| Analyzer.AnalysisConsistent | utilities.py:141-185 | the domain is the normalised netloc; `is_direct_video` is the direct-video test of the path; `requires_extraction` is the negation of `is_direct_video`; complexity and method always pair low/direct_download, medium/yt_dlp, high/browser_automation; a direct video wins over a streaming domain |
| Analyzer.DomainDropsLeadingWww | utilities.py:145 | a leading `www.` or `WWW.` does not change the analysed domain |
| Analyzer.DomainDropsInteriorWww | utilities.py:145 | a `www.` inside the netloc is dropped as well: with no earlier `www.`, `a + "www." + b` analyses to `a` followed by the analysed `b` |
| Analyzer.SampleInteriorWww | utilities.py:145 | `a.www.b` is analysed as `a.b` |
| Analyzer.NormalizeWithoutWww | utilities.py:145 | a lower-case netloc without `www.` is its own analysed domain |
| Analyzer.NotDirectByLastChar | utilities.py:164-167 | a path whose last character ends none of the extensions is not a direct video |
| Analyzer.BatchAnalyze | utilities.py:187-194 | one analysis per input URL, in input order, each the analysis of that URL and carrying that URL |
| Analyzer.CountDirectVideos | utilities.py:199 | the direct-video count is at most the number of analyses |
| Analyzer.CountStreaming | utilities.py:200 | the streaming-platform count is at most the number of analyses |
| Analyzer.TallySum | utilities.py:204-212 | each distribution built by the report loop counts every analysis exactly once |
| Analyzer.TallyCounts | utilities.py:204-212 | a distribution holds exactly the keys that occur, each with its number of occurrences |
| Analyzer.AnalysisReport | utilities.py:196-212 | the report counts every analysis in `total_urls`, and neither flag count exceeds it |
| Analyzer.GenerateAnalysisReport | utilities.py:196-219 | the loop builds the same two distributions and counts as the report specification |
| Analyzer.ReportTotals | utilities.py:196-219 | `total_urls` is the number of analyses; both distributions sum to it; the flag counts are at most it; the keys are the three labels and `unknown` |
| Analyzer.AnalyzeUrlConsistent | utilities.py:141-185 | every analysis `analyze_url` returns pairs its method with its complexity, and its complexity is low exactly for a direct video |
| Analyzer.DistributionsMirror | utilities.py:169-212 | for analyses from `analyze_url` the two distributions mirror each other label by label, and both count the direct videos under `low` / `direct_download` |
| Analyzer.BatchReportMirrors | utilities.py:187-212 | the report of a batch counts as many `low` entries as direct videos, and as many `medium` / `high` as `yt_dlp` / `browser_automation` |
| Analyzer.SampleDirectVideo | tests/test_video_downloader.py:309-316 | `https://example.com/video.mp4` is a direct video of low complexity, downloaded directly |
| Analyzer.SampleStreaming | tests/test_video_downloader.py:318-325 | `https://youtube.com/watch?v=abc123` is a streaming platform of medium complexity, handled by yt-dlp |
| Recovery.AnyPatternIn | utilities.py:493 | `any(pattern in text ...)` holds exactly when some pattern occurs in the text |
| Recovery.FirstMatch | utilities.py:492-496 | the search returns the first category, in declared order, that the text matches, or nothing when none matches |
| Recovery.CategorizeError | utilities.py:488-496 | the category is `unknown` or one of the declared category names, and it is `unknown` exactly when the lower-cased message matches no category |
| Recovery.CategorizeFirstMatchWins | utilities.py:488-496 | a message gets category k exactly when its lower-cased form matches k and no earlier category; it gets `unknown` exactly when it matches none |
| Recovery.CategorizeIgnoresCase | utilities.py:490 | a message and its lower-cased form get the same category |
| Recovery.TimeoutWins | utilities.py:480-496 | a message mentioning `timeout` is a `network_timeout`, even when it also mentions `429` |
| Recovery.AnyPatternNotUnknown | utilities.py:488-496 | a message mentioning any category's pattern is never `unknown` |
| Recovery.SuggestRecoveryAction | utilities.py:498-503 | exactly the three pinned cases have an action: (network_timeout, 1) retries after 30 s with the IP change not known, (rate_limited, 2) retries after 120 s with a new IP, (video_not_found, 1) skips without retry |
| Config.ConvertStringsToList | video_downloader.py:48-52 | a single selector becomes a one-element list, and a list is kept as is |
| Config.SiteKey | video_downloader.py:471 | the lookup key is never longer than the netloc, and a netloc without `www.` is its own key, case kept |
| Config.GetSiteConfig | video_downloader.py:469-472 | a profile is returned exactly when the netloc without `www.` is a key, and it is that key's profile |
| Config.WwwPrefixSameProfile | video_downloader.py:471 | a leading `www.` does not change which profile is found |
| Config.LookupIsCaseSensitive | video_downloader.py:469-472 | a profile stored under the lower-cased netloc is found only when the netloc is already lower case; no default is substituted |
| Vpn.ConnectStep | video_downloader.py:117-147 | disabled: success and no change; enabled: success exactly when the command exits with 0, and only then the country and time are recorded |
| Vpn.DisconnectResult | video_downloader.py:149-162 | `disconnect` is true exactly when disabled or the command exits with 0 |
| Vpn.RotateStep | video_downloader.py:164-178 | disabled or not due: true and no change; due: the result is the connection's success, and the state changes only on success, to the new country and the current time |
| Vpn.DisabledIsInert | video_downloader.py:119-121 | with the VPN disabled, connect, disconnect and rotate all return true and change nothing |
| Vpn.RotateIffDue | video_downloader.py:164-178 | an enabled manager reconnects exactly when forced or when more than the interval has passed, then returns the connection's result; otherwise it returns true and keeps its state |
| Vpn.NoEarlyRotation | video_downloader.py:169-172 | no unforced rotation happens within 300 seconds of the last one |
| Vpn.ForcedRotationConnects | video_downloader.py:172-176 | a forced rotation succeeds exactly when the new connection succeeds |
| Vpn.ServerStaysListed | video_downloader.py:125-134 | connecting and rotating keep the current server among the eight listed countries |
| Vpn.VpnManager.constructor | video_downloader.py:111-115 | a new manager has no server and counts its last rotation from its creation |
| Vpn.VpnManager.ConnectToRandomServer | video_downloader.py:117-147 | the result and the new fields are those of `ConnectStep` |
| Vpn.VpnManager.Disconnect | video_downloader.py:149-162 | returns true exactly when disabled or the command exits with 0 |
| Vpn.VpnManager.RotateIfNeeded | video_downloader.py:164-178 | the result and the new fields are those of `RotateStep` |
| Extractor.RemoveDisallowed | video_downloader.py:273 | only `\w`, `\s` and `-` survive, every word character is kept in order, and an all-allowed title is unchanged |
| Extractor.StripStart | video_downloader.py:273 | leading whitespace is dropped and the rest is a suffix of the input |
| Extractor.StripEnd | video_downloader.py:273 | trailing whitespace is dropped and the rest is a prefix of the input |
| Extractor.Strip | video_downloader.py:273 | no whitespace at either end, and the word characters are kept in order |
| Extractor.RemoveDisallowedCounts | video_downloader.py:273 | every allowed character keeps its number of occurrences and every other character vanishes |
| Extractor.StripStartDropsSpaces | video_downloader.py:273 | everything `strip` drops at the front is whitespace |
| Extractor.StripEndDropsSpaces | video_downloader.py:273 | everything `strip` drops at the end is whitespace |
| Extractor.StripKeepsMiddle | video_downloader.py:273 | the stripped title is one contiguous slice of the title, with only whitespace outside it |
| Extractor.CollapseRuns | video_downloader.py:274 | the result is empty exactly when the input is; it starts with the input's first character, or with `-` when that character is a separator |
| Extractor.CollapseNoSpace | video_downloader.py:274 | after collapsing, no whitespace is left and no two hyphens are neighbours |
| Extractor.CollapseKeepsWordChars | video_downloader.py:274 | collapsing keeps the word characters in order |
| Extractor.CollapseWordOrHyphen | video_downloader.py:274 | word characters and separators collapse to word characters and hyphens |
| Extractor.SanitizedTitleIsClean | video_downloader.py:272-274 | a cleaned title holds only word characters and `-`, with no whitespace and no `--`, and keeps the title's word characters in order |
| Extractor.SanitizeIdempotent | video_downloader.py:272-274 | cleaning a cleaned title changes nothing |
| Extractor.DisallowedBetweenWordsIsDropped | video_downloader.py:273-274 | two words joined by a removed character such as `/` come out glued together |
| Extractor.SpaceBetweenWordsBecomesHyphen | video_downloader.py:273-274 | two words joined by whitespace come out joined by one `-` |
| Extractor.CollapseFixed | video_downloader.py:274 | a string with no whitespace and no `--` is left as it is by the collapse |
| Extractor.CollapseWordsAroundSep | video_downloader.py:274 | one separator between two words collapses to a single `-` |
| Extractor.CollapseAppend | video_downloader.py:274 | no separator run crosses a non-separator, so the two sides collapse independently |
| Extractor.Truncate | video_downloader.py:280 | `s[:n]` is the prefix of length min(len(s), n) |
| Extractor.FullFilename | video_downloader.py:269-278 | the untruncated name is the domain without `www.`, then `_`, then the rest; the rest is the cleaned title for a non-empty title and the timestamp for an empty one |
| Extractor.SafeFilename | video_downloader.py:267-280 | the safe filename is at most 100 characters |
| Extractor.SafeFilenameIsPrefix | video_downloader.py:267-280 | the safe filename is the first min(length, 100) characters of domain, `_`, and the cleaned title or timestamp |
| Extractor.SafeFilenameStartsWithDomain | video_downloader.py:269-276 | when the domain is shorter than 100, the name starts with the domain without `www.` and `_` |
| Extractor.SafeFilenameTitleIsClean | video_downloader.py:271-280 | for a non-empty title and a domain shorter than 100, what follows `domain_` in the safe filename is a prefix of the cleaned title, with only word characters and `-` and no `--` |
| Extractor.TimestampReadsBack | video_downloader.py:277-278 | for an empty title that fits, what follows `domain_` reads back as the timestamp |
| Extractor.EmptyCleanTitleNoTimestamp | video_downloader.py:271-278 | a non-empty title that cleans to nothing still takes the title branch, giving `domain_` with no timestamp |
| Extractor.Suffix | video_downloader.py:350 | `Path.suffix` is empty or a final `.`-part of the name of at least two characters, never the whole name |
| Extractor.SuffixHasOneDot | video_downloader.py:350 | a non-empty suffix has no dot after its first character |
| Extractor.SuffixOfEnding | video_downloader.py:350 | a name ending in a dot-led extension with no other dot, and longer than it, has that extension as its suffix |
| Extractor.LastDotIsLast | video_downloader.py:350 | a dot with no dot after it is the last dot |
| Extractor.IsVideoFileByEnding | video_downloader.py:350 | a file is a video exactly when its name is longer than, and ends with, one of `.mp4`, `.mkv`, `.webm`, `.avi` |
| Extractor.LastDot | video_downloader.py:350 | the index of the last `.`, or nothing when the name has none |
| Extractor.Globbed | video_downloader.py:349 | the globbed files are listed names beginning with the stem and a dot |
| Extractor.GlobbedComplete | video_downloader.py:349 | every listed name beginning with the stem and a dot is globbed |
| Extractor.VideoFiles | video_downloader.py:350 | the filter keeps listed video files only, and is empty exactly when no file is a video |
| Extractor.FirstVideoFileIsFirst | video_downloader.py:350-352 | the first entry of the filtered list is a file of the listing before which no file is a video |
| Extractor.OutputStem | video_downloader.py:323-326 | a non-empty custom filename is used as is, otherwise the safe filename |
| Extractor.DownloadVideo | video_downloader.py:312-369 | the result carries the URL; missing info fails with its message; an exception fails with `Download fehlgeschlagen: ` and its text; a finished download with no video file among the globbed files fails with `Download-Datei nicht gefunden` |
| Extractor.DownloadWellFormed | video_downloader.py:319-369 | every result either succeeds with a file, the video information and no error, or fails with a non-empty error and no file |
| Extractor.GlobbedHasVideoIff | video_downloader.py:349-352 | the globbed files hold a video exactly when some listed video file begins with the stem and a dot |
| Extractor.GlobbedFirstVideo | video_downloader.py:349-356 | the first video of the globbed files is a listed file named after the stem, with a video suffix, and no globbed file before it is a video |
| Extractor.DownloadSucceedsIff | video_downloader.py:319-364 | a download succeeds exactly when info was found, the download finished and a listed file named after the stem has a video suffix |
| Extractor.DownloadReportsFirstVideo | video_downloader.py:349-361 | the file a successful download reports is a listed file named after the stem with a video suffix, the first video among the globbed files |

## Left out

- `urlparse` is not modelled. The URL arrives already split into network location and path, or with the error parsing raised. In `_get_safe_filename` and `_get_site_config` the netloc is given directly, so their `urlparse` exceptions are not modelled.
- Character classes are ASCII only: `str.lower`, `\w`, `\s` and `str.strip` act on ASCII as in Python, but non-ASCII letters, digits and spaces are not treated as Python treats them.
- Floating-point values are reals or left out: `_estimate_success_probability` and the report's `success_probability`, `get_average_metrics`, `export_metrics`, and yt-dlp's reported `quality`, whose type the model fixes as a string.
- psutil sampling is an input (`SystemReading`, or `None` when it raised); `PerformanceMetrics.download_speed_mbps` is always 0.0, as the code never sets it.
- Clocks are inputs: `datetime.now()` as microseconds, `time.time()` as whole seconds, the download duration as a real.
- Randomness is an input: the country of `random.choice` and the interval of `random.randint(300, 1800)`. The `random.uniform` sleeps and all `asyncio.sleep` calls are left out, as they change no state.
- `subprocess.run` is an input (`CommandOutcome`); the command text and logging are left out.
- `get_current_ip` (aiohttp), `HumanBehaviorSimulator`, the browser set-up and page analysis of `WebVideoDownloader` and `_handle_login` are Playwright or network calls and are not modelled.
- `extract_video_info` and the yt-dlp download are inputs: the model receives the `VideoInfo` or `None`, and the directory listing after the download or the exception's message.
- Extractor.DownloadVideo: the reported `filepath` is the listed file name; the output directory that `glob` puts in front of it (`video_downloader.py:349`, `359`) is not part of the path.
- `Extractor.Globbed` treats the glob `{stem}.*` as "begins with the stem and a dot"; glob metacharacters inside a stem are not modelled.
- `DownloadHistory` (SQLite), `RichDisplay`, the command-line interface, the examples and the installer are storage, presentation and I/O.
- The download orchestration (`process_single_url`, `download_multiple_urls`) is not part of this model: the source shown ends before it.
- Recovery.SuggestRecoveryAction: models only the three cases the tests pin down, and returns `None` for every other category and attempt, because `utilities.py` ends inside the action table (line 503) and the rest of `suggest_recovery_action` is not part of this model.
- The rejection of a negative `concurrent_downloads` that a test expects is not modelled: the visible `GlobalConfig` has no such constraint. `GlobalConfig` itself is configuration data with no behaviour here.
- `SiteConfig`'s default selector strings and delays are not modelled as defaults; a `SiteConfig` value carries whatever the configuration gives.
