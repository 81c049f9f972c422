# HomeworkServer client core, in Dafny

HomeworkServer's `main.py` is a small Python 2 command-line client for a
school homework site. It has two commands. `-v` lists the homeworks already
submitted and shows and downloads one of them. `-s FILE` lists the
assignments open for submission, each with its due date and whether it is
late, and uploads the file for the one chosen. This project models the
deterministic logic inside those commands and proves what it does:

- `wrappers.dfy`: `Option` and `Result`.
- `pystr.dfy` (module `PyStr`): the Python 2 string operations the script
  relies on, with their edge cases. These are `split`/`join` on one
  character, `find` returning -1, slicing with a negative index,
  `strip(chars)` taking a set of characters, `int()`/`str()`,
  `encode("ascii", "ignore")` and the ordering `sorted` uses on strings.
- `dates.dfy` (module `Dates`): `correct_date` and `is_late`. `correct_date`
  is a method that overwrites the cells of the split date, proved equal to
  the function `NormalizeDate`. The two `datetime.strptime` formats
  "%m/%d/%Y %H" and "%m/%d/%Y %H:%M" are modelled as their matching rules.
  The clock is a parameter `now`.
- `extract.dfy` (module `Extract`): the parts of `parse_homeworks` and
  `parse_assignments` that come after the HTML selection. Both are methods
  with their loops, proved against the functions `Homeworks` and
  `Assignments`. `sorted(d.items())` is an insertion-sort method proved to
  give the unique sorted item list of the dictionary.
- `portal.dfy` (module `Portal`): the settings lines and the server address,
  the ordered `if`/`elif` checks on a fetched page, and the prompt rules. The
  `use_proxy` flag is the class `Session`, which also keeps the log of
  requests sent. The network is a function `Server` from requests to replies.
- `commands.dfy` (module `Commands`): `view_homework` and `submit_homework`
  assembled from the pieces above.

## Model

| member | source | states |
|---|---|---|
| PyStr.Split | main.py:52 | `split` on one character never gives an empty list, no part holds the separator, and there is one part exactly when the separator is absent |
| PyStr.JoinSplit | main.py:70-72 | joining the parts of a split with the same separator gives back the original string |
| PyStr.SplitJoin | main.py:70-72 | splitting a join gives back the parts when none of them holds the separator |
| PyStr.LastPartIsSuffix | main.py:102 | the last part of a split is a suffix of the string, preceded by the separator unless it is the whole string |
| PyStr.Find | main.py:158 | `find` gives the first position where the substring occurs, and -1 exactly when it occurs nowhere |
| PyStr.SliceTo | main.py:158 | `s[:n]` is a prefix of `s`, clamped for large `n`, and `n` characters shorter than `s` for negative `n` (so `s[:-1]` drops the last character) |
| PyStr.SliceFrom | main.py:170 | `s[n:]` is the suffix after `n` characters, empty when `n` is past the end |
| PyStr.LStrip | main.py:78-80 | the `\s+` that the space in both date formats stands for: only characters of the set are skipped, and what is left does not start with one |
| PyStr.Strip | main.py:170 | `strip(chars)` removes a run of characters of the set from each end, and the result neither starts nor ends with one |
| PyStr.StripTail | main.py:266 | stripping text that starts and ends outside the set, followed by a tail made only of set characters, leaves exactly that text |
| PyStr.AsciiOnly | main.py:129 | `encode("ascii", "ignore")` leaves only ASCII characters, all taken from the input, and leaves an ASCII string unchanged |
| PyStr.AsciiOnlyChar | main.py:129 | one character is kept exactly when it is ASCII |
| PyStr.AsciiOnlyAppend | main.py:129 | filtering a concatenation is the concatenation of the filtered pieces; with `AsciiOnlyChar` this fixes the result as the ASCII characters of the input, in order |
| PyStr.NatToString | main.py:66 | `str(n)` of a natural number is a non-empty run of digits whose value is `n`, with no leading zero except for 0 itself, which is "0" |
| PyStr.IntToStringRoundTrip | main.py:66 | `int(str(n)) == n` for every integer |
| PyStr.CutAt | main.py:42 | cutting at the first occurrence of a character: the text before it holds no such character, and the pieces rebuild the string |
| PyStr.LessTransitive | main.py:142 | the string order `sorted` uses is transitive |
| PyStr.LessTotal | main.py:142 | any two distinct strings are ordered one way or the other |
| PyStr.LessAsymmetric | main.py:142 | the string order is never both ways |
| Dates.RewriteHour | main.py:61-69 | the hour rewrite, done in place, gives what `FixHour` specifies: the `p` branch, the `a` branch and their exceptions |
| Dates.CorrectDate | main.py:50-72 | `correct_date`, cell by cell, returns exactly `NormalizeDate(input)`, including the `IndexError` for fewer than three `/` parts or no space |
| Dates.NormalizedParts | main.py:52-72 | on success the number of `/` parts is kept; month and day get "0" exactly when their length is not 2; the year-and-time part gets "20" exactly when its length is not 10; its hour field is the rewritten hour; all later parts are unchanged |
| Dates.CanonicalUnchanged | main.py:52-72 | a date with 2-long month and day, a 10-long year-and-time part and no `a`/`p` in the hour comes back unchanged |
| Dates.YearPrefixed | main.py:57-58 | a short year-and-time part gets "20" in front and nothing else changes |
| Dates.NotIdempotent | main.py:50-72 | applying `correct_date` twice to a short year puts "20" in front twice, so the second result differs from the first |
| Dates.PmAddsTwelve | main.py:63-66 | "h:mmp" becomes h + 12, a colon and mm |
| Dates.PmDropsSeconds | main.py:63-66 | of "h:mm:ssp" only the part between the first two colons survives |
| Dates.PmWithoutColonFails | main.py:63-66 | a `p` hour without a colon raises `IndexError` |
| Dates.NoonPmBecomesTwentyFour | main.py:63-66 | "12:MMp" becomes "24:MM" |
| Dates.ClockTokensTwentyFour | main.py:78-80 | a clock "24:MM" matches neither the hour-only nor the hour:minute rule |
| Dates.ClockTwentyFourRejected | main.py:78-80 | neither format accepts a date whose clock is "24:MM" |
| Dates.TwentyFourRejected | main.py:76-80 | a due date whose corrected clock is "24:MM" makes `is_late` raise `ValueError` |
| Dates.AmDropsSuffix | main.py:67-68 | an `a` hour without a `p` only loses its last character |
| Dates.DaysInMonth | main.py:78 | every month has between 28 and 31 days |
| Dates.MonthToken | main.py:78 | a month field that matches `%m` is between 1 and 12 |
| Dates.DayToken | main.py:78 | a day field that matches `%d` is between 1 and 31 |
| Dates.HourToken | main.py:78 | an hour field that matches `%H` is between 0 and 23 |
| Dates.MinuteToken | main.py:80 | a minute field that matches `%M` is between 0 and 59 |
| Dates.ClockTokens | main.py:78-80 | an accepted clock has an hour of 0..23 and a minute of 0..59 |
| Dates.SplitDue | main.py:78-80 | the year cut out by either format is exactly four digits |
| Dates.YearClock | main.py:78-80 | the year cut out after the second `/` is exactly four digits |
| Dates.Assemble | main.py:78-80 | a date is produced exactly when month, day and clock all matched, the year is at least 1 and the day exists in that month of that year; it is the instant those fields denote, at second 0 |
| Dates.ParseDue | main.py:78-80 | whatever either format accepts is a valid timestamp; which strings each format reads, and as what, is stated by `Dates.HourOnlyRead`, `Dates.PaddedHourRead`, `Dates.UnpaddedClockRead` and `Dates.ParseFormat` |
| Dates.DueTime | main.py:76-80 | the due time is a valid timestamp and is accepted exactly when `correct_date` succeeds and one of the two formats reads its result, as the instant that format reads; an error of `correct_date` is passed on, and a string neither format reads raises `ValueError`. Since no string is accepted by both formats (`Dates.FormatsExclusive`), trying the hour-only format first decides nothing; how the result is compared with `now` is `Dates.LateIffStrictlyBefore` |
| Dates.IsLate | main.py:74-84 | `is_late` returns either "- Late" or "" when it does not raise |
| Dates.FormatsExclusive | main.py:77-80 | no string is accepted by both formats, so the order of the attempts never decides between two readings |
| Dates.ParseFormat | main.py:78-80 | a zero-padded "MM/DD/YYYY HH:MM" is rejected by the hour-only format and read back by the hour:minute format as the instant it spells |
| Dates.HourTokenNat | main.py:78 | `%H` reads back `str(h)` for every hour of the day, padded or not |
| Dates.HourDigits | main.py:78 | `str(h)` for an hour of the day has at most two digits |
| Dates.DueRead | main.py:78-80 | a zero-padded date followed by a clock the chosen format's `%H` or `%H:%M` reads is the instant of that date and clock |
| Dates.HourOnlyRead | main.py:78-80 | "MM/DD/YYYY H" with an unpadded hour is read by the hour-only format as that hour at minute 0 and rejected by the hour:minute format |
| Dates.PaddedHourRead | main.py:78-80 | "MM/DD/YYYY HH" with a zero-padded hour is read by the hour-only format as that hour at minute 0 and rejected by the hour:minute format |
| Dates.UnpaddedClockTokens | main.py:78-80 | "H:MM" with an unpadded hour is read by the hour:minute rule as that hour and minute and rejected by the hour-only rule |
| Dates.UnpaddedClockRead | main.py:78-80 | "MM/DD/YYYY H:MM" with an unpadded hour is rejected by the hour-only format and read by the hour:minute format as the instant it spells |
| Dates.FormatNormal | main.py:50-72 | `correct_date` leaves a zero-padded "MM/DD/YYYY HH:MM" unchanged |
| Dates.FormatRoundTrip | main.py:76-80 | a zero-padded "MM/DD/YYYY HH:MM" is normalised to itself and read back as the instant it spells |
| Dates.LexLessIrreflexive | main.py:82 | no datetime is before itself |
| Dates.LexLessTransitive | main.py:82 | the datetime order is transitive |
| Dates.LexLessTotal | main.py:82 | two datetimes are equal or one is before the other |
| Dates.LateIffStrictlyBefore | main.py:81-84 | "- Late" exactly when the due time is strictly before `now`, "" otherwise, and "" when they are equal |
| Dates.LateStaysLate | main.py:81-84 | once late, a due date stays late at every later instant |
| Dates.CanonicalLateness | main.py:74-84 | for a zero-padded "MM/DD/YYYY HH:MM", `is_late` is the strict comparison of the instant it spells with `now` |
| Dates.CenturyPrefix | main.py:57-58 | a four-digit year of this century is "20" followed by its last two digits |
| Dates.ShortYearNormal | main.py:50-72 | `correct_date` turns "MM/DD/YY clock" for a year of this century into "MM/DD/YYYY clock" and changes nothing else |
| Dates.ShortHourLateness | main.py:50-84 | the portal's short spelling "MM/DD/YY H" (two-digit year, unpadded hour) is read as that hour on the hour of that day in this century, and `is_late` is the strict comparison of that instant with `now` |
| Dates.ShortClockLateness | main.py:50-84 | the short spelling "MM/DD/YY H:MM" is read as that instant in this century, and `is_late` is the strict comparison of it with `now` |
| Extract.ZipMap | main.py:135-140 | the dictionary filled in order has exactly the keys assigned, and no more entries than keys |
| Extract.ZipMapLastWins | main.py:135-140 | a key repeated later takes the later value |
| Extract.ZipMapLonger | main.py:135-140 | values beyond the number of keys are never used |
| Extract.SortedItemsEmpty | main.py:142 | the sorted item list is empty exactly when the dictionary is |
| Extract.SortedItemsUnique | main.py:142 | a dictionary has only one sorted item list |
| Extract.SortedTail | main.py:142 | dropping the first item leaves the sorted items of the dictionary without its smallest key |
| Extract.SortItems | main.py:142 | `sorted(d.items())`: strictly ascending keys, each key of the dictionary once, with its value |
| Extract.AsciiLabels | main.py:126-130 | one cleaned label per label text |
| Extract.AsciiLabelsAt | main.py:128-130 | each label is its text with the non-ASCII characters dropped |
| Extract.AsciiLabelsOfAscii | main.py:129 | plain ASCII labels come through unchanged |
| Extract.ParseHomeworks | main.py:118-143 | `parse_homeworks`, with its trimming and filling loops, returns the sorted items of the pairing dictionary `Homeworks` |
| Extract.KeptLabelsShape | main.py:132-133 | no more labels are kept than there are links, and only labels at the front are dropped |
| Extract.HomeworksKeys | main.py:126-143 | every key is ASCII, and there are at most as many keys as labels and as links |
| Extract.HomeworksPairing | main.py:135-140 | the i-th kept label maps to the i-th link unless the same label is kept again later |
| Extract.HomeworksDropFirst | main.py:132-140 | with three labels and two links, the first label is dropped and the other two take the links in order |
| Extract.TitleBeforeOpening | main.py:158 | the title never holds " ("; with " (" it is everything before the first one; without it, the text minus its last character |
| Extract.DueTextWithoutOpening | main.py:170 | without " (", `find` gives -1 and the due date is the text from position 6 with `)` stripped at both ends |
| Extract.OptionParts | main.py:158-170 | a text of a title, " (", a five-character tag and a due date gives back that title and the due date with `)` stripped at both ends |
| Extract.Values | main.py:167-173 | on success there is one value per option |
| Extract.ValuesOk | main.py:167-173 | the loop succeeds exactly when every option's value does |
| Extract.ValuesAt | main.py:167-173 | the i-th value is the i-th option's value |
| Extract.ValuesFirstError | main.py:167-173 | the first option whose value fails decides the exception |
| Extract.Titles | main.py:156-158 | one title per option |
| Extract.TitlesAt | main.py:156-158 | the i-th title is the title of the i-th option text |
| Extract.FillAssignments | main.py:164-173 | the counter-driven loop gives the title-to-value dictionary, or the first exception of `is_late` |
| Extract.ParseAssignments | main.py:145-176 | `parse_assignments` raises exactly what `Assignments` raises, and otherwise returns its sorted items |
| Extract.NoOptions | main.py:160-162 | zero options give an empty dictionary, so the early return is never taken |
| Extract.AssignmentsFail | main.py:151-173 | the call fails exactly when an option text is not ASCII or a due date cannot be read; non-ASCII raises `UnicodeEncodeError` |
| Extract.AssignmentValue | main.py:164-175 | each title maps to its due date, a space and its lateness, and the later of two equal titles wins |
| Portal.QuotedValue | main.py:42-47 | the first quoted value exists exactly when the line has at least two quotes (otherwise `IndexError`) and holds no quote |
| Portal.QuotedValueOf | main.py:42-47 | a value written between two quotes, after text without quotes, is read back |
| Portal.ReadSettings | main.py:35-48 | the settings are read exactly when there are six lines each with a quoted value; teacher and semester come from the fifth and sixth lines |
| Portal.DownloadUrlShape | main.py:266 | stripping the characters of "pages.py" from the address of line 48 and adding the link gives `BASE_URL/TEACHER/SEMESTER/` followed by the link |
| Portal.LastSegment | main.py:102 | the file name from the address holds no `/`, ends the address, and is preceded by `/` unless it is the whole address |
| Portal.FileName | main.py:99-102 | a non-empty given name is used as is; otherwise the last `/`-segment of the address |
| Portal.Classify | main.py:182-194 | the outcome is the first marker in the check order that the page contains, or "proceed" when it contains none |
| Portal.ClassifyFirst | main.py:182-191 | a page holding a marker never gets an outcome later in the order than that marker |
| Portal.AnyProxiedAppend | main.py:29 | one more request leaves a proxied request in the log exactly when there was one or the new one is proxied |
| Portal.Session.constructor | main.py:29 | the proxy flag starts off and nothing has been sent |
| Portal.Session.GetPage | main.py:86-95 | one page request is sent, through the proxy when asked; asking for the proxy switches the flag on and nothing switches it off |
| Portal.Session.Fetch | main.py:180-194 | the page is classified once; only a blocked page is fetched a second time, through the proxy, and that page is used without a second check |
| Portal.Session.Download | main.py:97-116 | one file request is sent, through the proxy exactly when the flag is on; the file name follows `FileName`; the body is kept unless the status is a 4xx or 5xx error |
| Portal.Session.Submit | main.py:213-224 | one upload is sent, through the proxy exactly when the flag is on; it succeeds exactly when the status is 200 |
| Portal.ViewChoice | main.py:254-264 | the typed key if it exists, else the key with a "0" in front if that exists, else rejected |
| Portal.SubmitChoice | main.py:198-204 | only an exact key is accepted |
| Portal.ViewAcceptsMore | main.py:198-264 | every answer the submit prompt accepts, the view prompt accepts with the same result; the view prompt also accepts an answer with a "0" in front |
| Portal.ViewPrompt | main.py:254-264 | the view prompt returns the homework named by the first accepted answer, every earlier answer having been rejected (`FirstViewAnswer`), or nothing when every answer is rejected |
| Portal.SubmitPrompt | main.py:198-204 | the submit prompt returns the first answer that is an exact title, every earlier answer having been rejected (`FirstSubmitAnswer`), or nothing when none is |
| Portal.Prompt | main.py:198-204 | the prompt loop returns the first accepted answer after rejecting all earlier ones, or nothing when every answer is rejected |
| Commands.Yes | main.py:270 | `answer.lower() == "y"` holds for exactly the two answers "y" and "Y" |
| Commands.Keys | main.py:200 | a key is in the set exactly when some item carries it |
| Commands.Lookup | main.py:266 | the value looked up is the one paired with the key in the item list |
| Commands.ViewHomework | main.py:226-273 | Covered: the aborting outcomes; the proxied refetch; the homework list is the sorted pairing of the fetched page, and an empty list ends the command before any prompt, so a prompt is only reached with a non-empty list; the choice is what the first accepted answer names, every earlier answer having been rejected; the URL is `DownloadUrl` of that homework's link; the requests sent are the page fetches, the preview download and the copy download exactly when the answer is yes |
| Commands.PickAndDownload | main.py:254-271 | the prompt takes the first accepted answer, then the preview download, then a second download under the file's own name exactly when the answer is yes, both through the proxy exactly when the flag is on |
| Commands.SubmitHomework | main.py:178-224 | Covered: the aborting outcomes; the proxied refetch; a parse failure raises what `Assignments` raises; the list is the sorted assignments; the choice is the first typed exact title, every earlier answer having been rejected; one upload is sent and succeeds exactly when the status is 200 |

## Left out

- HTTP (`requests.post`, `requests.get`, streaming, the multipart upload) is the function `Server` from requests to replies. The proxy addresses and the form fields sent (name, password, period, student id) are not modelled; a request records only the page, address or assignment and whether it went through the proxy.
- HTML selection with BeautifulSoup/lxml is a parameter. `select` gives the label texts and link targets; `options` gives the option texts.
- `datetime.now()` is one parameter `now`, used for every `is_late` call of a run. `datetime.strptime` is modelled only for the two formats used. Its rules are Python 2.7's for `%m`, `%d`, `%Y`, `%H` and `%M` with one or more whitespace characters for the space; locale handling is not modelled.
- File I/O is not modelled: reading `settings.conf` (its lines are an input), opening and writing the downloaded file, reading the homework file to upload, and `os.system("cat …")`/`os.system("rm …")`. `Download` returns the file name and the contents it would write.
- `unquote_plus` on the name (main.py:42) is not applied; the name is kept as written in the file.
- `argparse`, `main`, printing and the SIGINT handler are not modelled.
- `raw_input` is modelled only as the sequence of lines the user types. A prompt that never gets an acceptable answer ends with no choice when the sequence runs out; the script would keep asking, and at the end of its input `raw_input` raises `EOFError`, which is not modelled.
- The comment prompt of `submit_homework` (main.py:206-211) is not modelled, and the comment is not part of the upload request.
- Portal.Session.Download: writes nothing for a bad reply and does not model the file being created or emptied before the request.
- PyStr.ParseInt: accepts optional surrounding whitespace, a sign and decimal digits. Python 2's `int()` also accepts whitespace between the sign and the digits (`int("- 5") == -5`); `ParseInt` rejects that spelling.
- The model follows the code as written in these cases:
  - labels only lose their non-ASCII characters; nothing else is cut from them;
  - `correct_date` is not idempotent (`Dates.NotIdempotent`);
  - `get_page` uses the proxy only when its argument asks for it, not when the global flag is on;
  - the guard `len(temp_assignments) < 0` can never hold;
  - the `try`/`except: break` in the pairing loop never breaks, since the trimming loop keeps the labels no more than the links;
  - "12p" raises `IndexError`, since there is no minute part after a colon (`Dates.PmWithoutColonFails`). "12:MMp" becomes "24:MM", which neither format accepts, so `is_late` raises `ValueError` (`Dates.NoonPmBecomesTwentyFour`, `Dates.TwentyFourRejected`). "12a" and "12:MMa" keep hour 12.
