# edx-dl core in Dafny

A model of the pure logic inside `edx_dl/edx_dl.py`, the edX course video downloader, with that logic taken out of its I/O shell:

- **`edx_json2srt`**: turns edX timed-text (three parallel arrays of start milliseconds, end milliseconds and text) into SubRip subtitles (`srt.dfy`, module `Srt`);
- **`directory_name`**: the course folder-name sanitiser (`folder.dfy`, module `Folder`);
- **`extract_subsection`**: how one subsection page becomes `Unit`s (a watch URL and an optional subtitle URL each). The model also covers `_extract_urls_from_subsections`, which flattens subsections into two aligned URL lists, and `extract_all_subsections`, which applies both to every subsection URL (`subsections.dfy`, module `Subsections`);
- **dashboard and courseware rules**:
  - the course state rule and the course list of `get_courses_info`;
  - the numbered section list of `get_available_sections`;
  - the accepted course numbers of `get_selected_course`;
  - the section choice of `get_selected_sections` (`courses.dfy`, module `Courses`).

`text.dfy` (module `Text`) holds the string helpers these share: `str(n)` for naturals, `%0Nd` zero padding, `endswith`/`startswith`, and Python 3's `str.strip()`. `wrappers.dfy` holds `Option` and `Result`.

Modelling choices:

- **Inputs in place of I/O:**
  - The base URL of the selected site is a parameter.
  - What the regular expressions find on a page is an input (`PageScan`): the pieces `re_splitter.split(page)` returns, and the identifiers `re_extra_youtube.findall(page)` returns.
  - `re_subs.search(piece)`'s capture is a separate function parameter (`TranscriptSearch`), from piece to optional capture.
  - Fetching a page and scanning it is a function `scanOf` from URL to `PageScan`.
  - The HTML navigation results are also inputs:
    - a course card is its heading text and its first link;
    - a chapter is its title text and its first link.
  - Interactive prompts are a sequence of typed-in numbers. Running out of numbers stands for the end of input.
- **Timestamps:** times are natural-number milliseconds. `datetime(1,1,1) + timedelta(...)` followed by `.hour`, `.minute`, `.second` and `.microsecond / 1000` becomes integer division and remainder. The hour is the hour of the day, so it wraps at 24.
  - Python's `datetime` cannot go past 9999-12-31, and the addition raises `OverflowError` there.
  - The model returns `Err(TimestampOverflow)` for any kept entry with a time of 3 652 059 days or more.
- **Parallel map:** `pool.map` returns results in input order, so the thread pool is modelled as a sequential map over the URLs.

The model follows the code as written, including these behaviours:

- **Cue numbers:** the cue index is the entry's position in the zipped arrays, as `enumerate` yields it, not a renumbered count. Skipping entries with empty text leaves gaps in the numbering.
- **Hours:** past 24 hours the hour field wraps round, because the day component is dropped. It does not keep counting.
- **Course card without a link:** the card raises (`None['href']` is a `TypeError`, and only `KeyError` is caught), so `get_courses_info` fails. Only a link *without* an `href` attribute gives a course with no URL that has not started.

## Model

| member | source | states |
|---|---|---|
| Text.NatToString | edx_dl/edx_dl.py:283 | `str(i)` is a non-empty string of decimal digits, with no leading zero unless the number is 0 |
| Text.ParseNatToString | edx_dl/edx_dl.py:283 | the digits `str(i)` prints read back as `i`, so distinct cue indices print differently |
| Text.ZeroPadReadsBack | edx_dl/edx_dl.py:286-288 | a `%0Nd` field holds only digits, reads back as the number, and is exactly N characters wide when the number fits in N digits |
| Text.ZeroPadTwoDigits | edx_dl/edx_dl.py:286-288 | `%02d` of a number below 100 is its tens digit followed by its units digit |
| Text.ZeroPadThreeDigits | edx_dl/edx_dl.py:286-288 | `%03d` of a number below 1000 is its hundreds, tens and units digits |
| Text.Strip | edx_dl/edx_dl.py:176 | `strip()` leaves a string with no white space at either end that is a contiguous slice of the input, with only white space cut off around it |
| Text.StripFramed | edx_dl/edx_dl.py:176 | stripping white space around a trimmed middle gives back exactly that middle, so the result of `strip()` is the unique such slice |
| Text.StripIdempotent | edx_dl/edx_dl.py:176 | stripping twice is the same as stripping once |
| Text.SpacesListed | edx_dl/edx_dl.py:176 | the white space `strip()` removes is exactly Python 3's 29 whitespace code points: tab to carriage return, the four separators U+001C to U+001F, space, U+0085, no-break space, U+1680, U+2000 to U+200A, the line and paragraph separators, U+202F, U+205F and U+3000 |
| Srt.ClockOf | edx_dl/edx_dl.py:284-285 | the clock fields of a millisecond count are within range (hour < 24, minute < 60, second < 60, millis < 1000) and together give the count modulo one day |
| Srt.ClockOfMillisOfDay | edx_dl/edx_dl.py:284-288 | every valid clock is the clock of its own millisecond-of-day, so formatting loses nothing within a day |
| Srt.ClockOfClosedForm | edx_dl/edx_dl.py:284-288 | hour = (m div 3600000) mod 24, minute = (m div 60000) mod 60, second = (m div 1000) mod 60, millis = m mod 1000 |
| Srt.ParseFormatClock | edx_dl/edx_dl.py:286-288 | the `%02d:%02d:%02d,%03d` timestamp is 12 characters and reads back as the same clock |
| Srt.FormatClockDigits | edx_dl/edx_dl.py:286-288 | the timestamp is the hour, minute and second digit pairs and the three millisecond digits, separated by `:`, `:` and `,` |
| Srt.TimestampBelowSecond | edx_dl/edx_dl.py:284-288 | a time below one second has zero hours, minutes and seconds, and prints as `00:00:00,` followed by its three millisecond digits |
| Srt.ZipLength | edx_dl/edx_dl.py:280 | `zip` stops at the shortest of the three arrays |
| Srt.KeptBelow | edx_dl/edx_dl.py:280-282 | the positions kept are below the bound, have non-empty text, and are strictly increasing |
| Srt.KeptIff | edx_dl/edx_dl.py:280-282 | a position is kept exactly when it is within the zipped length and its text is non-empty |
| Srt.KeptBelowNoGaps | edx_dl/edx_dl.py:280-283 | the kept positions are 0, 1, 2, … (numbering without gaps) exactly when no text is empty |
| Srt.Cue | edx_dl/edx_dl.py:283-289 | one cue is the index's digits, a newline, the start timestamp, ` --> `, the end timestamp, a newline, the text and a blank line: 33 characters plus index and text, with both timestamps reading back as the clocks of the given times |
| Srt.SrtOf | edx_dl/edx_dl.py:279-290 | the conversion fails exactly when some zipped entry with non-empty text has a time past the `datetime` range; otherwise it is the cues of the kept entries, in order |
| Srt.Json2Srt | edx_dl/edx_dl.py:278-290 | the loop's output is the concatenation, in increasing position order, of one cue per kept entry, each cue numbered by its zip position; a kept time past the `datetime` range is an overflow error |
| Srt.OverflowIsError | edx_dl/edx_dl.py:284-285 | one kept entry with a time past the `datetime` range makes the whole conversion fail |
| Srt.SrtOfEmpty | edx_dl/edx_dl.py:279-290 | no entries give the empty string |
| Srt.SrtOfEmptyFirst | edx_dl/edx_dl.py:280-283 | with an empty first text and a non-empty second, the only cue is numbered 1, not 0 |
| Srt.CueExampleWorld | edx_dl/edx_dl.py:283-289 | the block for index 1 from 1500 ms to 3200 ms with text `World` is `1\n00:00:01,500 --> 00:00:03,200\nWorld\n\n` |
| Srt.CueExampleHi | edx_dl/edx_dl.py:283-289 | the block for index 1 from 10 ms to 20 ms with text `Hi` carries the timestamps `00:00:00,010` and `00:00:00,020` |
| Folder.FolderCharsListed | edx_dl/edx_dl.py:270 | the range test accepts exactly the characters of `string.digits + string.ascii_letters + " _."`, listed one by one |
| Folder.Sanitized | edx_dl/edx_dl.py:270-274 | the kept characters are all digits, ASCII letters, space, `_` or `.`, and there are no more of them than input characters |
| Folder.SanitizedIsSubsequence | edx_dl/edx_dl.py:272-274 | the kept characters are a subsequence of the input, in input order |
| Folder.SanitizedCounts | edx_dl/edx_dl.py:272-274 | every allowed character is kept as often as it occurs, and every other character is dropped |
| Folder.SanitizedEmptyIff | edx_dl/edx_dl.py:272-275 | nothing survives exactly when the input has no allowed character |
| Folder.SanitizedKeepsClean | edx_dl/edx_dl.py:272-274 | a name made of allowed characters only is kept unchanged |
| Folder.DirectoryName | edx_dl/edx_dl.py:268-275 | the folder name is never empty and holds only allowed characters |
| Folder.DirectoryNameIdempotent | edx_dl/edx_dl.py:268-275 | sanitising a folder name again changes nothing |
| Folder.DirectoryNameDefault | edx_dl/edx_dl.py:275 | a name with no allowed character becomes `course_folder` |
| Subsections.VideoId | edx_dl/edx_dl.py:405 | the identifier is the first 11 characters of the piece, or the whole piece if it is shorter |
| Subsections.WatchIdOfWatchUrl | edx_dl/edx_dl.py:410-417 | the watch URL names exactly the identifier it was built from |
| Subsections.PrimaryUnit | edx_dl/edx_dl.py:404-411 | the watch URL names the piece's identifier; there is a subtitle URL exactly when the transcript capture exists; it starts with base URL + capture and ends with `/en?videoId=` + identifier |
| Subsections.PrimaryUnits | edx_dl/edx_dl.py:403-411 | one unit per piece, in piece order |
| Subsections.IframeUnits | edx_dl/edx_dl.py:415-417 | one subtitle-less unit per iframe identifier, in match order, naming its first 11 characters, duplicates kept |
| Subsections.ExtractSubsection | edx_dl/edx_dl.py:402-420 | corrected extraction: the subsection keeps its URL and has one unit per split piece after the first plus one per iframe identifier |
| Subsections.ExtractSubsectionAsWritten | edx_dl/edx_dl.py:414-417 | as written, extraction succeeds exactly when the page has no iframe identifier, and then keeps the URL and has one unit per piece after the first |
| Subsections.ExtractSubsectionUnits | edx_dl/edx_dl.py:402-420 | the subsection keeps its URL; its units are one per piece after the first, then one per iframe identifier; every unit is well formed |
| Subsections.NoMatchNoUnits | edx_dl/edx_dl.py:402-420 | a page where neither pattern matches yields no units |
| Subsections.AsWrittenAgreesIff | edx_dl/edx_dl.py:414-417 | the code as written gives the same subsection as the corrected one exactly on pages with no iframe embed, and fails on every other page |
| Subsections.IframeOnlyPage | edx_dl/edx_dl.py:417 | a page whose only match is one iframe embed (the split leaves the page as its one piece) yields one unit when corrected, and fails as written |
| Subsections.FlattenAppend | edx_dl/edx_dl.py:431-433 | flattening a concatenation of subsection lists concatenates the flattened parts |
| Subsections.FlattenPosition | edx_dl/edx_dl.py:431-433 | unit j of subsection i sits in the flat list right after all units of the earlier subsections |
| Subsections.ExtractUrls | edx_dl/edx_dl.py:423-435 | the two lists have the length of the flat unit list, and index k of each comes from flat unit k |
| Subsections.ExtractEachAppend | edx_dl/edx_dl.py:441-444 | mapping over two halves of the URL list gives the first half's subsections followed by the second half's |
| Subsections.ExtractAll | edx_dl/edx_dl.py:438-448 | the intermediate list `allResources` holds one subsection per URL, in URL order whatever order the pages are fetched in; the two lists hold the URLs of all their units, subsection by subsection and unit by unit |
| Courses.StateOf | edx_dl/edx_dl.py:182-183 | a course URL counts as started exactly when, one trailing slash aside, it ends in `info` |
| Courses.CourseOfCard | edx_dl/edx_dl.py:175-187 | a card fails exactly when it has no link; a course with no URL has not started |
| Courses.CourseOfCardSpec | edx_dl/edx_dl.py:175-185 | a card fails exactly when it has no link; its name is the stripped heading; it has a URL exactly when the link has an `href`, made of base URL + `href` and exactly as long as the two together; it is started exactly when that URL ends in `info` or `info/` |
| Courses.CoursesOf | edx_dl/edx_dl.py:171-187 | the course list succeeds exactly when every card has a link, and then holds one course per card, in card order |
| Courses.CoursesOfStates | edx_dl/edx_dl.py:175-186 | course k is named after card k and is started exactly when card k's `href` joined to the base URL ends in `info`, one trailing slash aside |
| Courses.ChooseCourse | edx_dl/edx_dl.py:195-211 | no course is chosen exactly when no typed number is acceptable; a chosen course is one of the listed courses and has started |
| Courses.ChooseCourseFirst | edx_dl/edx_dl.py:198-210 | the chosen course is the one the first acceptable number names, whatever came before |
| Courses.SectionOf | edx_dl/edx_dl.py:237-250 | a chapter yields a section exactly when it has both a title and a link, and the section carries the position it was given |
| Courses.SectionOfSpec | edx_dl/edx_dl.py:237-250 | a chapter yields a section exactly when it has a title and a link, a missing title reported first; the section has the given position, the stripped title as name, and base URL + `href` as URL |
| Courses.ListSections | edx_dl/edx_dl.py:245-250 | the list succeeds exactly when every chapter yields a section, and then holds chapter k's section at k; otherwise it reports the first failing chapter's error |
| Courses.ListSectionsNumbered | edx_dl/edx_dl.py:247-250 | sections are numbered 1, 2, … in page order and named after their chapter titles; the list exists exactly when every chapter has a title and a link |
| Courses.PyIndex | edx_dl/edx_dl.py:474 | Python indexing succeeds exactly for indexes from -len to len - 1; a non-negative index picks that element, and a negative index k picks element len + k |
| Courses.SelectSectionsAsWritten | edx_dl/edx_dl.py:466-474 | as written, the choice fails for lack of input exactly when every typed number is above the menu; a choice is all sections or a single one of them |
| Courses.NonPositiveCountsFromEnd | edx_dl/edx_dl.py:466-474 | as written, a first number n from 1 - len to 0 downloads section len + n - 1 counted from the start (0 gives the last), a smaller one raises `IndexError`; the intended guard asks again instead |
| Courses.Chosen | edx_dl/edx_dl.py:472-474 | the number one past the sections chooses them all; any listed number chooses exactly that section |
| Courses.ChooseSections | edx_dl/edx_dl.py:466-474 | with the intended guard, nothing is chosen exactly when no typed number is on the menu; otherwise the choice is all sections or a single one of them |
| Courses.ChooseSectionsFirst | edx_dl/edx_dl.py:467-474 | the choice is the one the first menu number names |
| Courses.AsWrittenAgreesOnPositive | edx_dl/edx_dl.py:466-474 | when every typed number is at least 1, the code as written chooses exactly what the intended guard chooses |

## Left out

- HTTP and sessions are not modelled: `get_page_contents`, `_get_initial_token`, `edx_login`, `edx_get_headers`, and the subtitle fetch with its `URLError`/`ValueError` handling in `edx_get_subtitle`. All of these are network I/O.
- BeautifulSoup navigation is not modelled. Cards and chapters arrive already reduced to their texts and links. A missing heading element, which also raises, is not modelled.
- The `re` engine is not modelled. Split pieces, transcript captures and iframe identifiers are inputs.
- The `ThreadPool` is not modelled. `pool.map` keeps input order, so a sequential map stands in for it. One failing page raises out of the whole map, and this model has no failing fetch.
- `change_openedx_site` and the site table are not modelled. The base URL is a parameter.
- Float arithmetic is not modelled. `timedelta(seconds=s/1000.)` divides a float, and the rounding this brings to non-integer or very large millisecond values is left out. Negative times are left out (times are `nat`).
- `int(input(...))` raising `ValueError` on non-numeric input is left out. Typed numbers arrive as integers.
- `display_courses`, `display_sections`, `parse_args`, `execute_command`, `get_filename` and `main` are not modelled. They are printing, argument parsing, subprocesses and the filesystem. This includes main's `url.replace('info', 'courseware')` and the `zfill(2)` filename prefix.
- Python 2's `unicode.strip()` also removes U+180E (MONGOLIAN VOWEL SEPARATOR). White space follows Python 3's table, which dropped that code point.
- Srt.Json2Srt: keeps the `datetime` range error at whole milliseconds. Python's boundary depends on float rounding of `s/1000.`.
- Subsections.ExtractAll: models the corrected extraction of each page. The code as written fails on any page with an iframe embed (see Findings).

## Findings

| source | as written | input that shows it | evidently intended | confidence | as-written member | corrected member |
|---|---|---|---|---|---|---|
| edx_dl/edx_dl.py:414-417 | the iframe pass builds `Unit(video_youtube_url=...)` without `sub_url`, but `Unit` (line 98) is a namedtuple with no defaults, so the call raises `TypeError` | any subsection page containing one `//www.youtube.com/embed/<id>?` link | append a unit with no subtitle URL (`sub_url=None`) | high, not executed | Subsections.ExtractSubsectionAsWritten, Subsections.IframeOnlyPage | Subsections.ExtractSubsection, Subsections.ExtractSubsectionUnits |
| edx_dl/edx_dl.py:468-474 | the re-prompt guard is only `number > num_sections + 1`, so 0 and negative numbers pass and index `sections` from the end | three sections and the input `0`: the last section is downloaded, though the menu offers 1 to 4 | re-prompt while `number < 1 or number > num_sections + 1` | high, not executed | Courses.SelectSectionsAsWritten, Courses.NonPositiveCountsFromEnd | Courses.ChooseSections, Courses.ChooseSectionsFirst |
