# pgn-scraper, modelled in Dafny

`pgn-scraper.py` takes seed web pages and finds the links on them that name
chess-database files (`.pgn`, `.zip`, `.cbv`, … and `download=1`). It looks
on the page itself and in the documents of its `frame` and `iframe`
elements. It then downloads each link with up to three attempts and saves
the body under a directory named after the seed's host, with a sanitized
file name. The process-wide `failed_urls` map records, under the URL, the
status of a seed page that answers neither 200 nor 404, and the last error
status of a download (404 included). Exceptions, and frames that answer
anything but 200, are not recorded.

The model covers the following parts of the script:

- `sanitize_filename` (module `Sanitizer`, built on the string helpers in
  `Text`), with the `allow_unicode=False` path that the script always takes.
- `url_to_dir`, and the naming and saving part of `download_file`
  (`Downloading`).
- `chess_files` and `get_files` (`Links`).
- What `fetch_and_parse` discovers and records (`Fetching`).
- The stateful procedures (`Crawler`). Class `Scraper` holds `failed_urls`
  as its field `failed`. Its methods are `fetch_and_parse`, the retry loop
  and the rest of `download_file`, and one turn of the main loop over the
  seeds.
- Small concrete runs written as clients of those methods' contracts
  (`Scenarios`).

The network and the HTML parser are abstract:

- A GET is given as its outcome: a status with what came back, or an
  exception (`Outcome`).
- A document is given as what the parser would find in it: the hrefs of its
  anchors and its frames (`Page`, `Frame`).
- The library calls whose meaning is not modelled are function-valued
  parameters: `urlparse(...).netloc`, `urljoin`, `unquote` and the NFKD
  normalisation (`Library`, `Normalizer`).
- The random token from `token_urlsafe(5)` is a parameter.
- `time.sleep` becomes the list of sleeps that were requested.
- Writing a file becomes the `Saving` value that says where it is written.

Behaviour of the code worth noting, all of it modelled as written:

- If the GET of a frame raises, or one of the two frame parses (lines
  85-88) raises, the exception reaches the outer `except` of
  `fetch_and_parse` (lines 100-102). The page's own links are discarded as
  well (`Scenarios.RaisingFrameLosesEverything`,
  `Scenarios.UnparsableFramesLoseEverything`).
- A network error in `fetch_and_parse` or in `download_file` is only
  printed. `failed_urls` is left unchanged.
- HTTP error statuses never cause a sleep. When all three attempts answer
  an error status other than 404, the loop simply ends, and the third
  response is saved like a success (`Scenarios.ServerErrorEveryTime`).
- Sleeps happen only after an exception that leaves another attempt, so
  they are at most 1 and then 2 seconds (`Downloading.BackoffsPerAttempt`,
  `Downloading.BackoffSchedule`).
- The file name from `content-disposition` is element 1 of
  `split("filename=")`: the text between the first and the second
  occurrence of `filename=`. When the header has no `filename=`, the code
  raises `IndexError` after the directory has been created
  (`Saving.HeaderError`).

## Model

| member | source | states |
|---|---|---|
| Text.Find | pgn-scraper.py:49 | the index found is an occurrence of the separator and no earlier index is one; there is no result exactly when the separator does not occur |
| Text.Split | pgn-scraper.py:49 | `str.split` gives at least one part, and at least two exactly when the separator occurs |
| Text.JoinSplit | pgn-scraper.py:49 | joining the parts of a split with the same separator gives back the original string |
| Text.SplitPartsFree | pgn-scraper.py:49 | no part of a split contains the separator |
| Text.FirstPartEmpty | pgn-scraper.py:49 | the first part is empty exactly when the string is empty or starts with the separator |
| Text.SplitAtFirst | pgn-scraper.py:134 | splitting `p + sep + rest` gives `[p, rest]` when neither `p` nor `rest` contains the separator and the separator cannot overlap itself |
| Text.AbsentLastChar | pgn-scraper.py:134 | a string lacking the separator's last character does not contain the separator |
| Text.LastSegmentIsTail | pgn-scraper.py:128 | `link.split("/")[-1]` has no `/`, is a suffix of the link, and is the whole link or follows a `/` |
| Text.LastSegment | pgn-scraper.py:128 | definition: the last element of `link.split("/")`; its properties are `Text.LastSegmentIsTail` |
| Sanitizer.IsSpace | pgn-scraper.py:46-48 | definition: the whitespace that `strip()` removes at line 46 and that `\s` matches at line 48, on ASCII text as `str.isspace()` has it (space, tab to carriage return, and 0x1c to 0x1f); `Sanitizer.CleanIsClean` states that none survives cleaning |
| Sanitizer.IsAllowed | pgn-scraper.py:45 | definition: membership in `valid_chars`, that is `-_.()'&! ` and the ASCII letters and digits; `Sanitizer.SanitizeAllowed` states that every output character is one |
| Sanitizer.Filter | pgn-scraper.py:47 | the kept characters all pass the test and come from the input, and nothing is lost when every character passes; the definition keeps them in input order, and `Sanitizer.FilterCounts` and `Sanitizer.FilterConcat` give the rest |
| Sanitizer.FilterCounts | pgn-scraper.py:47 | every occurrence of a character passing the test is kept, and no occurrence of any other character |
| Sanitizer.FilterConcat | pgn-scraper.py:47 | filtering a concatenation is the concatenation of the filtered pieces, so kept characters stay in input order |
| Sanitizer.DropNonAscii | pgn-scraper.py:44 | `encode("ascii", "ignore")` leaves only ASCII characters, and leaves an ASCII string unchanged |
| Sanitizer.Lower | pgn-scraper.py:46 | `lower()` on ASCII text keeps the length, leaves no upper-case letter, keeps every other character, and moves each upper-case letter up by 32 |
| Sanitizer.ReplaceSpaces | pgn-scraper.py:46 | `replace(" ", "-")` keeps the length, turns each space into a hyphen, and keeps every other character |
| Sanitizer.StripLeft | pgn-scraper.py:46 | `lstrip` leaves a suffix that is empty or starts with a kept character; it is shorter when the first character is dropped and unchanged otherwise |
| Sanitizer.StripLeftRemovesRun | pgn-scraper.py:46 | every character `lstrip` removes is droppable, so exactly the leading run of droppable characters goes |
| Sanitizer.StripRight | pgn-scraper.py:46 | `rstrip` leaves a prefix that is empty or ends with a kept character, unchanged when the last character is kept |
| Sanitizer.StripRightRemovesRun | pgn-scraper.py:46 | every character `rstrip` removes is droppable, so exactly the trailing run of droppable characters goes |
| Sanitizer.Strip | pgn-scraper.py:46-48 | definition: `strip()` as `rstrip` after `lstrip`; its contracts are those of `Sanitizer.StripLeft` and `Sanitizer.StripRight` |
| Sanitizer.Collapse | pgn-scraper.py:48 | definition: `re.sub(r"[-\s]+", "-", …)`, one hyphen for each maximal run of hyphens and whitespace; its properties are `Sanitizer.CollapseRun`, `Sanitizer.CollapseNoDoubleHyphen`, `Sanitizer.CollapseShape`, `Sanitizer.CollapseKeepsOthers` and `Sanitizer.CollapseFixes` |
| Sanitizer.CollapseRun | pgn-scraper.py:48 | a maximal run of hyphens and whitespace (a non-empty run with no run character before or after it) becomes exactly one hyphen, and the text on each side is collapsed on its own: `Collapse(a + run + b) == Collapse(a) + "-" + Collapse(b)` |
| Sanitizer.CollapseNoDoubleHyphen | pgn-scraper.py:48 | whatever the input, the substitution leaves no two hyphens in a row |
| Sanitizer.CollapseShape | pgn-scraper.py:48 | after `re.sub(r"[-\s]+", "-", …)` on clean characters, no two hyphens are adjacent and only clean characters remain |
| Sanitizer.CollapseKeepsOthers | pgn-scraper.py:48 | every character that is neither a hyphen nor whitespace survives the substitution, all of them and in the same order |
| Sanitizer.CollapseFixes | pgn-scraper.py:48 | the substitution changes nothing on a string with no whitespace and no double hyphen |
| Sanitizer.Clean | pgn-scraper.py:46-48 | definition: lines 46-48 on the ASCII text; its properties are `Sanitizer.CleanIsClean`, `Sanitizer.CleanFixesClean` and `Sanitizer.CleanIdempotent` |
| Sanitizer.CleanIsClean | pgn-scraper.py:46-48 | lower-casing, stripping, filtering, collapsing and hyphen-stripping give lower-case allowed characters, no spaces, no double hyphen and no hyphen at either end |
| Sanitizer.CleanFixesClean | pgn-scraper.py:46-48 | the cleaning steps leave an already clean name unchanged |
| Sanitizer.CleanIdempotent | pgn-scraper.py:46-48 | cleaning twice is the same as cleaning once |
| Sanitizer.AvoidHidden | pgn-scraper.py:49-50 | definition: the `generated_` prefix when the part before the first `.` is empty; `Sanitizer.AvoidHiddenCases` states when that is |
| Sanitizer.AvoidDegenerate | pgn-scraper.py:51-52 | definition: a generated name in place of `""`, `.`, `..` or `-`; `Sanitizer.DegenerateCheckIsDead` shows it never applies |
| Sanitizer.AvoidHiddenCases | pgn-scraper.py:49-50 | the part before the first `.` is empty exactly when the name is empty or starts with `.`, and only then is the generated prefix added |
| Sanitizer.DegenerateCheckIsDead | pgn-scraper.py:49-52 | after line 50, a clean name is never `""`, `.`, `..` or `-`, so lines 51-52 never fire |
| Sanitizer.Sanitize | pgn-scraper.py:38-55 | definition: `sanitize_filename(value)` with `allow_unicode` false; its properties are the `Sanitizer.Sanitize…` lemmas below |
| Sanitizer.SanitizeCases | pgn-scraper.py:38-55 | an empty value gives `generated_<token>`; otherwise the cleaned ASCII text, prefixed with `generated_<token>` when it is empty or starts with `.` |
| Sanitizer.SanitizeNeverDegenerate | pgn-scraper.py:38-55 | the result is never empty, `.`, `..` or `-` |
| Sanitizer.SanitizeShape | pgn-scraper.py:38-55 | the result is a clean name not starting with `.`, or `generated_<token>` followed by a clean name |
| Sanitizer.SanitizeAllowed | pgn-scraper.py:38-55 | with a url-safe token, every character of the result is in `valid_chars` and none is whitespace |
| Sanitizer.SanitizeFixesPlain | pgn-scraper.py:38-55 | a clean name not starting with `.`, left alone by `unquote` and NFKD, is returned unchanged |
| Sanitizer.SanitizeIdempotent | pgn-scraper.py:38-55 | sanitizing a result that needed no generated prefix gives it back, whatever the second token |
| Sanitizer.CleanDropsQuotes | pgn-scraper.py:46-48 | the cleaning steps remove the double quotes around a clean name and keep the name |
| Sanitizer.SanitizeDropsQuotes | pgn-scraper.py:38-55 | a quoted clean name, as `content-disposition` gives it, sanitizes to the bare name |
| Links.GetFiles | pgn-scraper.py:64-76 | the links collected are exactly the non-empty hrefs ending with a chess-file suffix, and none when the parser raised |
| Links.EndsWithAny | pgn-scraper.py:71 | definition: `str.endswith` with a tuple, true when some suffix in it ends the string (also the seed test at line 171); `Links.EverySuffixKept`, `Links.ExcludedByLastChar` and `Links.GuardIsRedundant` state it for `chess_files` |
| Links.IsChessFile | pgn-scraper.py:15-32 | definition: the test of line 71 against the sixteen suffixes of `chess_files` (`Links.ChessFiles`); its properties are the `Links` lemmas below |
| Links.FileLinks | pgn-scraper.py:69-72 | definition: the set `get_files` returns, specified for `Links.GetFiles` |
| Links.ExcludedByLastChar | pgn-scraper.py:15-32 | an href whose last character ends none of the suffixes is never a chess-file link |
| Links.HtmlAndUpperCaseExcluded | pgn-scraper.py:71 | the suffix test is case-sensitive and drops web pages: `.html` and `.PGN` links are not kept |
| Links.EverySuffixKept | pgn-scraper.py:15-32 | an href ending with any of the sixteen suffixes is kept |
| Links.GuardIsRedundant | pgn-scraper.py:71 | the `href and` guard changes nothing, so the driver's bare `endswith` test at line 171 is the same filter |
| Links.DuplicatesCollapse | pgn-scraper.py:66-72 | an anchor repeating an earlier href adds nothing to the set |
| Links.AtMostOneLinkPerHref | pgn-scraper.py:66-72 | a page yields at most as many links as it has anchors |
| Fetching.FrameLinksMembers | pgn-scraper.py:84-96 | a link comes from the frames exactly when a frame that has a `src` and answers 200 offers it |
| Fetching.FrameLinks | pgn-scraper.py:89-96 | definition: the union of the file links of the frames that have a `src` and answer 200; `Fetching.FrameLinksMembers` states its members |
| Fetching.Discovered | pgn-scraper.py:78-103 | definition: the set `fetch_and_parse` returns; `Fetching.FetchClassification` states it case by case |
| Fetching.PageFailures | pgn-scraper.py:97-99 | definition: `failed_urls` after `fetch_and_parse`; `Fetching.FetchClassification` states it case by case |
| Fetching.DiscoveredAreChessFiles | pgn-scraper.py:78-103 | every discovered link passes the chess-file test |
| Fetching.FetchClassification | pgn-scraper.py:78-103 | on 200 the page's and frames' links and no new failure; on 404 nothing; on another status nothing, with the status recorded under the URL; on an exception, or when a frame parse or a frame's GET raises, nothing |
| Downloading.UrlToDir | pgn-scraper.py:58-62 | a host starting with `www.` loses exactly that prefix; any other host is kept |
| Downloading.UrlToDirStripsOnce | pgn-scraper.py:58-62 | only one `www.` is removed |
| Downloading.Resolve | pgn-scraper.py:107-108 | definition: a link not starting with `http` is joined to the seed URL |
| Downloading.Decide | pgn-scraper.py:113-126 | definition: what one attempt leads to (save, 404 and return, record and retry, sleep `2**attempt` and retry, give up) |
| Downloading.Record | pgn-scraper.py:116-120 | definition: `failed_urls` after the attempts; its properties are `Downloading.RecordOnlyTouchesLink`, `Downloading.RecordNoError`, `Downloading.RecordLastError` and `Downloading.RecordKeepsLastError` |
| Downloading.Backoffs | pgn-scraper.py:121-124 | definition: the sleeps the attempts request; its properties are `Downloading.BackoffsPerAttempt` and `Downloading.BackoffSchedule` |
| Downloading.AttemptStep | pgn-scraper.py:110-126 | one more attempt records its status when that is an error status, and adds a sleep only when it backs off |
| Downloading.RecordOnlyTouchesLink | pgn-scraper.py:116-120 | the retry loop changes no failure entry other than the link's own |
| Downloading.RecordNoError | pgn-scraper.py:116-120 | when no attempt returned an error status, `failed_urls` is unchanged |
| Downloading.RecordLastError | pgn-scraper.py:116-120 | when attempt `j` is the last to return an error status, `failed_urls` is the old map with the link set to that status |
| Downloading.RecordKeepsLastError | pgn-scraper.py:116-120 | the link's entry ends as the last error status seen, and is untouched when every attempt was a 200 or raised |
| Downloading.SleepAfter | pgn-scraper.py:121-124 | definition: attempt `i` sleeps `2**i` seconds after an exception when `i < max_retries - 1`, and not otherwise; `Downloading.BackoffsPerAttempt` states that the sleeps of the loop are these, in order |
| Downloading.BackoffsPerAttempt | pgn-scraper.py:121-124 | the sleeps are those of the attempts in order: attempt `i` sleeps `2**i` seconds exactly when it raised and is not the last of the three |
| Downloading.BackoffSchedule | pgn-scraper.py:121-126 | over the three attempts, at most two sleeps, each of 1 or 2 seconds, increasing; there is one only when some attempt raised, and the last is at most `2**(n-1)` for `n` attempts |
| Downloading.SaveAs | pgn-scraper.py:128-140 | once the loop has kept a response, a file or the header error always follows |
| Downloading.SaveDirFromSeed | pgn-scraper.py:129 | the directory depends only on the seed's host and the token, never on the link or the response |
| Downloading.SaveNaming | pgn-scraper.py:128-140 | without `content-disposition`, the file is named after the link's last segment; with `filename=` in it, after part 1 of the split; without `filename=`, the header error; the body is written as received |
| Downloading.QuotedFilenameNamesFile | pgn-scraper.py:132-136 | a header `<prefix>filename="name"`, whose prefix holds no `filename=` and whose name is clean, saves the body as `name` in the seed's directory |
| Downloading.FilenameKeyUnbordered | pgn-scraper.py:134 | `filename=` cannot overlap another occurrence of itself |
| Downloading.GamePgnHeader | pgn-scraper.py:132-136 | `attachment; filename="game.pgn"` saves the file as `game.pgn`, whatever the link's own tail |
| Downloading.ExampleComDirectory | pgn-scraper.py:58-62 | every download from the seed `http://www.example.com/` goes under `example.com` |
| Crawler.Scraper.constructor | pgn-scraper.py:34 | `failed_urls` starts empty |
| Crawler.LoadFrames | pgn-scraper.py:89-96 | reports a raise exactly when some frame with a `src` has a GET that raises; otherwise returns the file links of the frames with a `src` that answer 200 |
| Crawler.Scraper.FetchAndParse | pgn-scraper.py:78-103 | returns the links the fetch discovers, and records the URL's status exactly when it is neither 200 nor 404 |
| Crawler.Scraper.Retry | pgn-scraper.py:109-126 | one to three attempts; each attempt but the last continues the loop; fewer than three only when the last one stops it; the sleeps are the backoff schedule; the failure map follows the recorded statuses; a response is kept exactly when the loop ended on a 200 or ran out on an error status, and it is that attempt's |
| Crawler.Scraper.DownloadFile | pgn-scraper.py:106-141 | resolves a relative link against the seed, runs the retry loop on it, and saves the kept response under the seed's directory; otherwise writes nothing |
| Crawler.Scraper.VisitSeed | pgn-scraper.py:170-177 | a seed that names a chess file is the only link and is not fetched; otherwise the links and failures are those of fetching the seed page; downloads start exactly when there are links |
| Scenarios.ServerErrorEveryTime | pgn-scraper.py:109-140 | three error statuses other than 404: three attempts, no sleep, the last status recorded, and the third response is saved |
| Scenarios.TransportErrorEveryTime | pgn-scraper.py:109-126 | three exceptions: three attempts, sleeps of 1 and 2 seconds, nothing written, nothing recorded |
| Scenarios.ErrorThenSuccess | pgn-scraper.py:109-140 | an error and then a 200: two attempts, the 200 saved, the earlier error still recorded |
| Scenarios.NotFoundAtOnce | pgn-scraper.py:115-118 | a 404 first: one attempt, nothing written, 404 recorded |
| Scenarios.PageWithOneGame | pgn-scraper.py:64-83 | a page repeating a game link among a web page and an empty href yields only the game, with no failure recorded |
| Scenarios.RaisingFrameLosesEverything | pgn-scraper.py:89-102 | a frame whose GET raises empties the result, page links included |
| Scenarios.UnparsableFramesLoseEverything | pgn-scraper.py:84-102 | a frame parse that raises empties the result, page links included |

## Left out

- HTTP itself: the shared `requests.Session`, the header set (lines 160-168) and the GETs. Each GET is given as its outcome.
- HTML parsing with BeautifulSoup and the strainers (lines 67-69 and 84-88). A page is given as the hrefs of its anchors (absent when the parser raised) and its frames (absent when a frame parse raised).
- Frame `src` resolution with `urljoin` (lines 92-93). Each frame carries the outcome of the GET of its resolved address.
- `urlparse(...).netloc`, `urljoin`, `unquote` and NFKD: these are library calls whose semantics are not modelled. They are parameters, and a lemma that needs one of them to behave a certain way says so in its `requires`.
- The `allow_unicode=True` branch of `sanitize_filename` (lines 41-42): the script never passes it.
- `token_urlsafe(5)`: randomness is a parameter. Lines 50 and 52 would draw two tokens; the model passes one token per call, which is enough because line 52 never fires (`Sanitizer.DegenerateCheckIsDead`).
- `thread_downloads` (lines 144-153): the worker pool of six, the interleaving of downloads and the `KeyboardInterrupt` handling. Each download is modelled as one sequential call on the shared `Scraper`. Because of this, an `IndexError` from a header without `filename=` ends as `Saving.HeaderError`. In the code, `future.result()` (line 149) re-raises that error in the main thread, where only `KeyboardInterrupt` is caught (line 150): the loop over seed URLs stops and the `failed_urls` file (lines 179-180) is never written. The model does not capture that abort.
- `time.sleep`: the model returns the requested sleeps instead of waiting.
- `makedirs` (lines 130 and 137) and the file write (lines 139-140): the model returns the directory, name and body in a `Saving` value. The second `makedirs` on `sanitize_filename(file_dir)` only creates a directory and is not modelled.
- The final dump of `failed_urls` to a file (lines 179-180), and every `print`.
- The loop over `urls_to_parse` (lines 157-158): one turn of it is modelled (`Crawler.Scraper.VisitSeed`); the seed list is configuration.
- Crawler.Scraper.Retry: `outcomes` must supply at least three answers. Unused ones are ignored, so this is a modelling convention, not a demand on callers.
- Crawler.Scraper.DownloadFile: the same convention on `outcomes` as `Retry`.
