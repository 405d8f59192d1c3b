# Opened-URL tracker

A Dafny model of the URL-open tracker in `OpensitesChrome/Opensitesin_Chrome.py`.
The program keeps a log file `opened_urls.txt`, one record `url | YYYY-MM-DD HH:MM:SS` per line.
It reads a list of URLs from `urls.txt` and opens in a browser tab each URL that the log and the current run have not seen yet.
It appends a record for every URL it opens.
At startup it empties the log when the date in the first record is not today or does not parse.

The model has five modules:

- `Wrappers` holds `Option`.
- `Text` models Python's `str.strip()` and `str.split(" | ")`, with `Join` as the inverse of the split.
- `DateTimes` models dates and clock readings, the `strftime` format `%Y-%m-%d %H:%M:%S` and the `strptime` parse of that format, including the range checks of `datetime`.
- `OpenedLog` holds the pure definitions:
  - which lines are records;
  - when the startup check empties the log (`Rollover`);
  - which URLs the loader takes from the log (`Opened`);
  - what record line `open_url` writes (`RecordLine`);
  - which URLs a run over an input list opens (`NewUrls`).
- `Opensites` holds the program's state as the class `Tracker`:
  - `log` is the log file, with `None` while the file does not exist;
  - `openedUrls` is the module-level set `opened_urls`;
  - `tabs` lists the URLs handed to the browser.

  The startup block is the constructor. `open_url` is `OpenUrl`. `open_urls_from_file` is `OpenUrlsFromFile`, and its loop is `OpenAll`. Each of these is proved against the functions of `OpenedLog`. `RunOnce` is one execution of the script.

Files are modelled as sequences of lines without their line ends.
Python reads a text file with universal newlines, so no line it yields holds `'\n'` or `'\r'`. Line sequences with either character inside a line are outside the model; nothing in the model excludes them, and no property depends on their absence.
The clock is modelled as parameters:
- `today: Date` is the date the startup check compares with;
- `clock: nat -> DateTime` gives the time the k-th record of a run is stamped with.

The separator `" | "` is called Sep in the table below.
A record reads back as its URL only when `" | "` does not occur in `url + " |"`.
In words, the URL must contain no `" | "` and must not end in `" |"`.
A URL `a |` is written as `a | | <time>`, which the loader reads back as `a`. `BarEndingUrlMisread` proves this.
A URL that contains `" | "` makes its record split into at least three fields.
The startup check only looks at records of exactly two fields, so when such a record is first it never empties the log (`ThreeFieldFirstRecordKept`).
A URL that ends in `" |"` gives a first record whose second field is `| <time>`, which never parses, so the log is emptied at every start, even on the day it was written (`BarEndingUrlAlwaysTruncated`).
Either way the loader reads such a record back as a URL other than the one opened, so an unsafe URL is opened again on every run (`RecordRoundTrip`).

Where a general description of the program and its code differ, the model follows the code:
- A first record that does not split into exactly two fields leaves the log as it is. It is not treated as a malformed date.
- The in-memory set holds URLs only. It does not map URLs to their times.
- The startup check runs before the input file is looked for, so a stale log is emptied even when `urls.txt` is missing.

## Model

| member | source | states |
|---|---|---|
| Text.Strip | OpensitesChrome/Opensitesin_Chrome.py:18 | The stripped line has no whitespace at either end. It is empty exactly when the line is all whitespace, which is the `if line.strip()` filter. A line that is already stripped is unchanged. |
| Text.Split | OpensitesChrome/Opensitesin_Chrome.py:22 | The split gives at least one piece, and no piece contains Sep. It gives a single piece exactly when the line contains no Sep. |
| Text.JoinSplit | OpensitesChrome/Opensitesin_Chrome.py:22 | Joining the pieces with Sep gives the line back, so the split loses nothing. |
| Text.SplitAfterField | OpensitesChrome/Opensitesin_Chrome.py:38 | In a line `a`, Sep, `b`, the first field is `a` exactly when Sep does not occur in `a` followed by a space and a bar. In that case the remaining pieces are the pieces of `b`. |
| Text.ContainsWithBar | OpensitesChrome/Opensitesin_Chrome.py:38 | Sep occurs in `a` followed by a space and a bar exactly when it occurs in `a` or when `a` ends in a space and a bar. |
| DateTimes.ParseStamp | OpensitesChrome/Opensitesin_Chrome.py:25 | A string the parser accepts gives a valid date and time: year 1..9999, a day that exists in its month, hour below 24, minute and second below 60. Formatting that reading gives the string back. Everything else is the `ValueError` case, `None`. |
| DateTimes.FormatLayout | OpensitesChrome/Opensitesin_Chrome.py:73 | The formatted time of any reading has digits everywhere except a dash at 4 and 7, a space at 10 and a colon at 13 and 16, the layout `strptime` reads. |
| DateTimes.ParsedReadings | OpensitesChrome/Opensitesin_Chrome.py:25 | A string is the formatted time of a reading exactly when it parses to that reading, so `strptime` inverts `strftime` and accepts nothing else that formats to a reading. |
| DateTimes.ParseFormat | OpensitesChrome/Opensitesin_Chrome.py:73 | Parsing the formatted time of any clock reading gives back the same reading. |
| DateTimes.FormatCharacters | OpensitesChrome/Opensitesin_Chrome.py:73 | The formatted time contains no bar character, and it begins and ends with a digit. |
| OpenedLog.Records | OpensitesChrome/Opensitesin_Chrome.py:18 | There are no more records than lines, and every record is non-empty and stripped. |
| OpenedLog.RecordsMembers | OpensitesChrome/Opensitesin_Chrome.py:18 | A string is a record exactly when some non-blank line strips to it. |
| OpenedLog.FirstRecord | OpensitesChrome/Opensitesin_Chrome.py:19-21 | The first record is the stripped first non-blank line. |
| OpenedLog.NoRecords | OpensitesChrome/Opensitesin_Chrome.py:19 | A file of blank lines has no records, so the `if lines:` branch is not taken. |
| OpenedLog.TruncationCondition | OpensitesChrome/Opensitesin_Chrome.py:18-33 | The log is emptied exactly when all of these hold: a non-blank line exists; the first one splits into exactly two fields; its second field fails to parse or gives a date other than today. |
| OpenedLog.Rollover | OpensitesChrome/Opensitesin_Chrome.py:16-33 | After the check, the log is empty exactly when it was already empty or the truncation condition holds. Otherwise it is unchanged, and a missing log stays missing. |
| OpenedLog.SelfWrittenLogRollover | OpensitesChrome/Opensitesin_Chrome.py:22-33 | Take a log whose first line is a record the tracker wrote for a safe URL. It is emptied exactly when that record was written on a day other than today. |
| OpenedLog.StaleMeaning | OpensitesChrome/Opensitesin_Chrome.py:25-33 | A date field is stale exactly when no clock reading of today formats to it, so the `ValueError` branch and the `file_date != today` branch together empty the log for every field except the formatted time of a reading taken today. |
| OpenedLog.ThreeFieldFirstRecordKept | OpensitesChrome/Opensitesin_Chrome.py:22-33 | For any non-blank stripped URL that contains Sep, a log whose first line is that URL's record is never emptied, however old the date. |
| OpenedLog.SeparatedUrlFields | OpensitesChrome/Opensitesin_Chrome.py:22-23 | The record line of a URL that contains Sep splits into at least three fields, so `len(parts) == 2` fails. |
| Text.TwoOccurrences | OpensitesChrome/Opensitesin_Chrome.py:22 | A line with two non-overlapping occurrences of Sep splits into at least three pieces. |
| OpenedLog.BarEndingUrlAlwaysTruncated | OpensitesChrome/Opensitesin_Chrome.py:19-33 | For a safe `a`, a log whose first line is the record of `a` followed by a space and a bar is emptied at every start, whatever today is. |
| OpenedLog.BarEndingFields | OpensitesChrome/Opensitesin_Chrome.py:22-25 | That record splits into exactly `a` and a bar, a space and the formatted time, and that second field does not parse. |
| OpenedLog.BarFieldHasNoSep | OpensitesChrome/Opensitesin_Chrome.py:22 | A bar, a space and the formatted time hold no Sep. |
| OpenedLog.Opened | OpensitesChrome/Opensitesin_Chrome.py:38 | Every loaded URL is non-empty and contains no Sep. |
| Text.FirstFieldOfStripped | OpensitesChrome/Opensitesin_Chrome.py:38 | The first field of a non-empty stripped line is non-empty and contains no Sep. |
| OpenedLog.OpenedMembers | OpensitesChrome/Opensitesin_Chrome.py:38 | A URL is loaded exactly when it is the first field of some stripped non-blank line. |
| OpenedLog.OpenedAppend | OpensitesChrome/Opensitesin_Chrome.py:38 | Loading a log with lines appended gives the old set plus the URLs of the new lines, and none is lost. |
| OpenedLog.RecordLine | OpensitesChrome/Opensitesin_Chrome.py:73 | The written line begins with the URL and is 22 characters longer: Sep and the 19-character time. |
| OpenedLog.RecordRoundTrip | OpensitesChrome/Opensitesin_Chrome.py:73 | The line written for a non-blank stripped URL is one record. Loading it gives exactly `{url}` if and only if the URL is safe. A safe URL's line splits into the URL and the formatted time. |
| OpenedLog.BarEndingUrlMisread | OpensitesChrome/Opensitesin_Chrome.py:73 | Stripped and free of Sep is not enough. For a safe `a`, the URL made of `a`, a space and a bar is stripped and has no Sep, yet its record loads as `{a}`. |
| OpenedLog.OpenedRecordSnoc | OpensitesChrome/Opensitesin_Chrome.py:71-73 | Appending the record of a safe URL adds exactly that URL to what the loader reads. |
| OpenedLog.OpenedRecordLines | OpensitesChrome/Opensitesin_Chrome.py:73 | Loading the lines written for a list of safe URLs gives exactly the set of those URLs. |
| OpenedLog.NewUrlsMembers | OpensitesChrome/Opensitesin_Chrome.py:87-92 | A run opens a URL exactly when it is in the input list and was not in the set when the run began. |
| OpenedLog.NewUrlsDistinct | OpensitesChrome/Opensitesin_Chrome.py:55-57 | No URL is opened twice in one run, even when the list repeats it. |
| OpenedLog.NewUrlsOrder | OpensitesChrome/Opensitesin_Chrome.py:87-92 | URLs are opened in the order of their first occurrence in the input list. |
| OpenedLog.NewUrlsCover | OpensitesChrome/Opensitesin_Chrome.py:71 | The set at the start plus the URLs opened equals the set at the start plus every URL of the list. |
| OpenedLog.DuplicateInputExample | OpensitesChrome/Opensitesin_Chrome.py:87-92 | With an empty set, the list `a.com, b.com, a.com` opens `a.com` and then `b.com`, once each. |
| OpenedLog.ReloadAfterRun | OpensitesChrome/Opensitesin_Chrome.py:36-40 | Take a run over safe URLs. Reloading the log it leaves gives the set loaded before the run plus every URL of the list, which is the set the run ends with. |
| Opensites.Tracker.constructor | OpensitesChrome/Opensitesin_Chrome.py:15-40 | The startup block leaves the log as `Rollover` of the log it found. The loaded set is what `Opened` takes from that log, so it is empty when the log has no lines. No tab is open yet. |
| Opensites.Tracker.OpenUrl | OpensitesChrome/Opensitesin_Chrome.py:50-73 | A URL already in the set changes nothing: no tab is opened and no line is written. A new URL is opened in exactly one tab and added to the set. Exactly one line URL, Sep, formatted time is appended to the log, which is created if it is missing. The run invariant is kept. |
| Opensites.ConsistentOpen | OpensitesChrome/Opensitesin_Chrome.py:55-73 | Opening a URL that is not in the set keeps the run invariant. The set stays the loaded set plus the tabs, no tab is repeated or was loaded, and the log stays the start log plus one record per tab. |
| Opensites.Tracker.OpenUrlsFromFile | OpensitesChrome/Opensitesin_Chrome.py:75-92 | A missing input file changes nothing. Otherwise the tabs grow by the input records not yet seen, in order and once each. The set grows by every input record. The log grows by one record per new tab, stamped with successive clock readings. |
| Opensites.Tracker.OpenAll | OpensitesChrome/Opensitesin_Chrome.py:87-92 | Calling `open_url` on each URL of the list in turn opens `NewUrls` of the list. It adds every URL to the set and appends their records in order. |
| Opensites.RunOnce | OpensitesChrome/Opensitesin_Chrome.py:94-97 | A run opens `NewUrls` of the input against the set loaded after the startup check, and no URL twice. It leaves the log as the checked log plus their records. A missing input leaves the checked log. When every input URL is safe, reloading the final log gives the loaded set plus every input URL. |

## Left out

- The browser is not modelled. Registering Chrome with `webbrowser` and the executable path are left out, and opening a tab is recorded only as the URL appended to `tabs`, so `tabs` lists the URLs handed to the browser, not the tabs that actually opened. When the browser cannot be launched, `webbrowser` catches the error and `open_new_tab` returns `False`, which `open_url` ignores: the URL is still added to the set and logged, as in the model.
- `is_chrome_running` and the `psutil` process scan are left out. Their only effect is which message is printed.
- All `print` messages are left out, and so is `os._exit(0)` at the end.
- The two branches of `if not opened_urls` in `open_urls_from_file` run the same loop and differ only in the message. The model has one loop.
- File I/O is modelled as values:
  - a file is `Option<seq<string>>`, with `None` when it does not exist;
  - UTF-8 decoding is not modelled;
  - a line is modelled without its line end.

  A log whose last line has no trailing newline would have the next record joined onto that line. The model assumes every line ends with a newline.
- `datetime.now()` is modelled as parameters: `today` for the startup check and `clock(k)` for the k-th record of a run.
- Concurrent runs writing the same log are not modelled.
- DateTimes.ParseStamp: accepts only the fixed-width form that `strftime` writes. `strptime` also accepts single-digit month, day, hour, minute and second fields, and any run of whitespace for the space. On such a first record the model empties the log where the program might keep it.
- DateTimes.Format: pads the year to four digits. `strftime` may not pad years before 1000.
