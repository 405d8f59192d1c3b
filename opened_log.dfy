/**
 * The pure side of the tracker: which lines of the log are records, when
 * the startup check truncates the log, which URLs the log marks as opened,
 * what a record line looks like, and which URLs of an input list a run opens.
 */
module OpenedLog {
  import opened Wrappers
  import opened Text
  import opened DateTimes

  /** The lines of a file that may be missing: a missing file reads as no lines. */
  function LogLines(log: Option<seq<string>>): seq<string> {
    if log.Some? then log.value else []
  }

  /**
   * `[line.strip() for line in f if line.strip()]`: the stripped non-blank
   * lines, in order. Used for the log at startup and for the input list.
   */
  function Records(lines: seq<string>): (rs: seq<string>)
    ensures |rs| <= |lines|
    ensures forall k :: 0 <= k < |rs| ==> rs[k] != [] && IsStripped(rs[k])
  {
    if lines == [] then []
    else
      var r := Strip(lines[0]);
      (if r == [] then [] else [r]) + Records(lines[1..])
  }

  /** A line that is already a record stays the first record in front of other lines. */
  lemma RecordsCons(line: string, rest: seq<string>)
    requires line != [] && IsStripped(line)
    ensures Records([line] + rest) == [line] + Records(rest)
  {
    var lines := [line] + rest;
    assert lines[0] == line && lines[1..] == rest;
  }

  /** The records are exactly the stripped forms of the non-blank lines. */
  lemma {:induction false} RecordsMembers(lines: seq<string>, x: string)
    ensures x in Records(lines) <==> exists i :: 0 <= i < |lines| && !IsBlank(lines[i]) && Strip(lines[i]) == x
  {
    if lines != [] {
      var tail := lines[1..];
      RecordsStep(lines, x);
      RecordsMembers(tail, x);
      if x in Records(lines) {
        if x in Records(tail) {
          var i :| 0 <= i < |tail| && !IsBlank(tail[i]) && Strip(tail[i]) == x;
          assert lines[i + 1] == tail[i];
        }
      } else {
        forall i | 0 <= i < |lines| ensures IsBlank(lines[i]) || Strip(lines[i]) != x {
          if i > 0 {
            assert lines[i] == tail[i - 1];
          }
        }
      }
    }
  }

  /** A record of `lines` comes from its first line or from the lines after it. */
  lemma RecordsStep(lines: seq<string>, x: string)
    requires lines != []
    ensures x in Records(lines) <==> (!IsBlank(lines[0]) && Strip(lines[0]) == x) || x in Records(lines[1..])
  {
  }

  /** Line `i` is the first line that is not blank. */
  predicate IsFirstNonBlank(lines: seq<string>, i: int) {
    0 <= i < |lines| && !IsBlank(lines[i]) && forall j :: 0 <= j < i ==> IsBlank(lines[j])
  }

  /**
   * What counts as the first record: blank lines are skipped, and the first
   * record is the stripped first non-blank line.
   */
  lemma {:induction false} FirstRecord(lines: seq<string>, i: int)
    requires IsFirstNonBlank(lines, i)
    ensures Records(lines) != [] && Records(lines)[0] == Strip(lines[i])
  {
    if i > 0 {
      assert IsFirstNonBlank(lines[1..], i - 1) by {
        forall j | 0 <= j < i - 1 ensures IsBlank(lines[1..][j]) {
          assert lines[1..][j] == lines[j + 1];
        }
      }
      FirstRecord(lines[1..], i - 1);
    }
  }

  /** With no non-blank line there are no records. */
  lemma {:induction false} NoRecords(lines: seq<string>)
    requires forall j :: 0 <= j < |lines| ==> IsBlank(lines[j])
    ensures Records(lines) == []
  {
    if lines != [] {
      NoRecords(lines[1..]);
    }
  }

  /** The date field of the first record does not give today's date: it fails to parse or names another day. */
  predicate IsStale(dateField: string, today: Date)
  {
    match ParseStamp(dateField)
    case None => true
    case Some(t) => t.date != today
  }

  /**
   * A date field is stale exactly when no clock reading of today formats to
   * it: the check compares with the date as `strftime` would have written it.
   */
  lemma StaleMeaning(dateField: string, today: Date)
    ensures IsStale(dateField, today) <==>
      forall t: DateTime :: Format(t) == dateField ==> t.date != today
  {
    ParsedReadings(dateField);
  }

  /**
   * The startup check: the first record is split on `Sep`; only a record of
   * exactly two fields whose date field is stale makes the log truncated.
   */
  predicate ShouldTruncate(lines: seq<string>, today: Date) {
    var rs := Records(lines);
    rs != [] && |Split(rs[0])| == 2 && IsStale(Split(rs[0])[1], today)
  }

  /**
   * The truncation condition spelled out: the log is truncated exactly when
   * it has a non-blank line, the first one splits into two fields, and the
   * second is stale.
   */
  lemma TruncationCondition(lines: seq<string>, today: Date)
    ensures ShouldTruncate(lines, today) <==>
      exists i :: IsFirstNonBlank(lines, i) && |Split(Strip(lines[i]))| == 2 && IsStale(Split(Strip(lines[i]))[1], today)
  {
    if exists i :: IsFirstNonBlank(lines, i) {
      var i :| IsFirstNonBlank(lines, i);
      FirstRecord(lines, i);
      forall i' | IsFirstNonBlank(lines, i') ensures i' == i { }
    } else {
      forall j | 0 <= j < |lines| ensures IsBlank(lines[j]) {
        if !IsBlank(lines[j]) {
          FirstNonBlankExists(lines, j);
        }
      }
      NoRecords(lines);
    }
  }

  /** A non-blank line at `j` means some line is the first non-blank one. */
  lemma {:induction false} FirstNonBlankExists(lines: seq<string>, j: int)
    requires 0 <= j < |lines| && !IsBlank(lines[j])
    ensures exists i :: IsFirstNonBlank(lines, i)
    decreases j
  {
    if forall k :: 0 <= k < j ==> IsBlank(lines[k]) {
      assert IsFirstNonBlank(lines, j);
    } else {
      var k :| 0 <= k < j && !IsBlank(lines[k]);
      FirstNonBlankExists(lines, k);
    }
  }

  /** The log after the startup check: truncated to empty, or as it was. */
  function Rollover(log: Option<seq<string>>, today: Date): (r: Option<seq<string>>)
    ensures r == Some([]) <==> log == Some([]) || (log.Some? && ShouldTruncate(log.value, today))
    ensures r != Some([]) ==> r == log
  {
    if log.Some? && ShouldTruncate(log.value, today) then Some([]) else log
  }

  /** `set(line.strip().split(" | ")[0] for line in f if line.strip())`. */
  function Opened(lines: seq<string>): (urls: set<string>)
    ensures forall u :: u in urls ==> u != [] && !Contains(u)
  {
    var rs := Records(lines);
    assert forall r :: r in rs ==> FirstField(r) != [] && !Contains(FirstField(r)) by {
      forall r | r in rs ensures FirstField(r) != [] && !Contains(FirstField(r)) {
        FirstFieldOfStripped(r);
      }
    }
    set r | r in rs :: FirstField(r)
  }

  /** The loaded set is the set of first fields of the stripped non-blank lines. */
  lemma OpenedMembers(lines: seq<string>, url: string)
    ensures url in Opened(lines) <==>
      exists i :: 0 <= i < |lines| && !IsBlank(lines[i]) && FirstField(Strip(lines[i])) == url
  {
    if url in Opened(lines) {
      var r :| r in Records(lines) && FirstField(r) == url;
      RecordsMembers(lines, r);
    }
    if exists i :: 0 <= i < |lines| && !IsBlank(lines[i]) && FirstField(Strip(lines[i])) == url {
      var i :| 0 <= i < |lines| && !IsBlank(lines[i]) && FirstField(Strip(lines[i])) == url;
      RecordsMembers(lines, Strip(lines[i]));
    }
  }

  /** Lines appended to a log add their URLs to the loaded set and remove none. */
  lemma OpenedAppend(a: seq<string>, b: seq<string>)
    ensures Opened(a + b) == Opened(a) + Opened(b)
  {
    forall x ensures x in Opened(a + b) <==> x in Opened(a) || x in Opened(b) {
      OpenedAppendMember(a, b, x);
    }
  }

  lemma OpenedAppendMember(a: seq<string>, b: seq<string>, x: string)
    ensures x in Opened(a + b) <==> x in Opened(a) || x in Opened(b)
  {
    var ab := a + b;
    OpenedMembers(ab, x);
    OpenedMembers(a, x);
    OpenedMembers(b, x);
    if x in Opened(ab) {
      var i :| 0 <= i < |ab| && !IsBlank(ab[i]) && FirstField(Strip(ab[i])) == x;
      if i < |a| {
        assert ab[i] == a[i];
      } else {
        assert ab[i] == b[i - |a|];
      }
    }
    if x in Opened(a) {
      var i :| 0 <= i < |a| && !IsBlank(a[i]) && FirstField(Strip(a[i])) == x;
      assert ab[i] == a[i];
    }
    if x in Opened(b) {
      var i :| 0 <= i < |b| && !IsBlank(b[i]) && FirstField(Strip(b[i])) == x;
      assert ab[i + |a|] == b[i];
    }
  }

  /** The line `open_url` appends: `f"{url} | {now:%Y-%m-%d %H:%M:%S}"`. */
  function RecordLine(url: string, now: DateTime): (line: string)
    ensures |line| == |url| + |Sep| + 19 && line[..|url|] == url
  {
    url + Sep + Format(now)
  }

  /**
   * A URL whose record reads back as itself: non-blank and stripped (as every
   * URL read from the input is) and with no `Sep` in `url + " |"`.
   */
  predicate IsSafeUrl(url: string) {
    url != [] && IsStripped(url) && !Contains(url + " |")
  }

  /**
   * The record round trip. A record line is one record and splits into the
   * URL and the formatted time exactly when the URL is safe; the loader then
   * reads back the URL, and only then.
   */
  lemma RecordRoundTrip(url: string, now: DateTime)
    requires url != [] && IsStripped(url)
    ensures Records([RecordLine(url, now)]) == [RecordLine(url, now)]
    ensures Opened([RecordLine(url, now)]) == {url} <==> IsSafeUrl(url)
    ensures IsSafeUrl(url) ==> Split(RecordLine(url, now)) == [url, Format(now)]
  {
    var line := RecordLine(url, now);
    RecordLineIsRecord(url, now);
    assert Opened([line]) == {FirstField(line)};
    SplitAfterField(url, Format(now));
    FormatHasNoSep(now);
  }

  /** A record line of a non-blank stripped URL is its own single record. */
  lemma RecordLineIsRecord(url: string, now: DateTime)
    requires url != [] && IsStripped(url)
    ensures RecordLine(url, now) != [] && IsStripped(RecordLine(url, now))
    ensures Records([RecordLine(url, now)]) == [RecordLine(url, now)]
  {
    var line := RecordLine(url, now);
    RecordLineStripped(url, now);
    var single: seq<string> := [line];
    assert |single[1..]| == 0;
  }

  /** A record line of a non-blank stripped URL is non-blank and stripped. */
  lemma RecordLineStripped(url: string, now: DateTime)
    requires url != [] && IsStripped(url)
    ensures RecordLine(url, now) != [] && IsStripped(RecordLine(url, now))
  {
    var line := RecordLine(url, now);
    FormatCharacters(now);
    assert line[0] == url[0] && line[|line| - 1] == Format(now)[18];
  }

  /** A formatted time splits into itself. */
  lemma FormatHasNoSep(now: DateTime)
    ensures Split(Format(now)) == [Format(now)]
  {
    var f := Format(now);
    FormatCharacters(now);
    forall j: nat | j < |f| ensures !OccursAt(f, j) {
      if j + |Sep| <= |f| {
        assert f[j + 1] != Sep[1];
      }
    }
  }

  /**
   * `IsStripped` and the absence of `Sep` are not enough on their own: for a
   * safe `a`, the URL `a + " |"` is logged as "a | | <time>", which reads
   * back as `a`.
   */
  lemma BarEndingUrlMisread(a: string, now: DateTime)
    requires IsSafeUrl(a)
    ensures a + " |" != [] && IsStripped(a + " |") && !Contains(a + " |")
    ensures Opened([RecordLine(a + " |", now)]) == {a}
  {
    var url := a + " |";
    assert url[0] == a[0] && url[|url| - 1] == '|';
    RecordLineIsRecord(url, now);
    MisreadField(a, now);
  }

  /** The first field of the record line of `a + " |"` is `a`. */
  lemma MisreadField(a: string, now: DateTime)
    requires !Contains(a + " |")
    ensures FirstField(RecordLine(a + " |", now)) == a
  {
    assert RecordLine(a + " |", now) == a + Sep + ("| " + Format(now));
    SplitAfterField(a, "| " + Format(now));
  }

  /**
   * A log the tracker wrote itself, starting with the record of a safe URL,
   * is truncated at startup exactly when that record was not written today.
   */
  lemma SelfWrittenLogRollover(url: string, now: DateTime, rest: seq<string>, today: Date)
    requires IsSafeUrl(url)
    ensures ShouldTruncate([RecordLine(url, now)] + rest, today) <==> now.date != today
  {
    RecordRoundTrip(url, now);
    RecordLineStripped(url, now);
    RecordsCons(RecordLine(url, now), rest);
    ParseFormat(now);
  }

  /**
   * A first record whose URL contains `Sep` has at least three fields, so
   * the log is never truncated, however old its date.
   */
  lemma ThreeFieldFirstRecordKept(url: string, now: DateTime, rest: seq<string>, today: Date)
    requires url != [] && IsStripped(url) && Contains(url)
    ensures !ShouldTruncate([RecordLine(url, now)] + rest, today)
  {
    RecordLineStripped(url, now);
    RecordsCons(RecordLine(url, now), rest);
    SeparatedUrlFields(url, now);
  }

  /** The record line of a URL that contains `Sep` splits into at least three fields. */
  lemma SeparatedUrlFields(url: string, now: DateTime)
    requires Contains(url)
    ensures |Split(RecordLine(url, now))| >= 3
  {
    var line := RecordLine(url, now);
    var p: nat :| p < |url| && OccursAt(url, p);
    assert line[p] == url[p] && line[p + 1] == url[p + 1] && line[p + 2] == url[p + 2];
    assert line[|url|..|url| + |Sep|] == Sep;
    TwoOccurrences(line, p, |url|);
  }

  /**
   * A first record written for a URL that ends in " |" splits into two
   * fields whose second, "| <time>", never parses: the log is truncated at
   * every start, even on the day it was written.
   */
  lemma BarEndingUrlAlwaysTruncated(a: string, now: DateTime, rest: seq<string>, today: Date)
    requires IsSafeUrl(a)
    ensures ShouldTruncate([RecordLine(a + " |", now)] + rest, today)
  {
    var url := a + " |";
    assert url[0] == a[0] && url[|url| - 1] == '|';
    RecordLineStripped(url, now);
    RecordsCons(RecordLine(url, now), rest);
    BarEndingFields(a, now);
  }

  /** The record line of `a + " |"` splits into `a` and "| <time>", which is no time. */
  lemma BarEndingFields(a: string, now: DateTime)
    requires !Contains(a + " |")
    ensures Split(RecordLine(a + " |", now)) == [a, "| " + Format(now)]
    ensures ParseStamp("| " + Format(now)) == None
  {
    var f := "| " + Format(now);
    assert RecordLine(a + " |", now) == a + Sep + f;
    SplitAfterField(a, f);
    BarFieldHasNoSep(now);
    assert |f| != 19;
  }

  /** "| <time>" holds no `Sep`: its bar is at the start and the time has none. */
  lemma BarFieldHasNoSep(now: DateTime)
    ensures !Contains("| " + Format(now))
  {
    var f := "| " + Format(now);
    FormatCharacters(now);
    forall j: nat | j < |f| ensures !OccursAt(f, j) {
      if j + |Sep| <= |f| {
        if j == 0 {
          assert f[0] != Sep[0];
        } else if j == 1 {
          assert f[2] == Format(now)[0];
        } else {
          assert f[j + 1] == Format(now)[j - 1];
        }
      }
    }
  }

  /** The record lines for `urls`, the k-th stamped with `stamps[k]`. */
  function RecordLines(urls: seq<string>, stamps: seq<DateTime>): (lines: seq<string>)
    requires |urls| == |stamps|
    ensures |lines| == |urls|
  {
    seq(|urls|, k requires 0 <= k < |urls| => RecordLine(urls[k], stamps[k]))
  }

  lemma RecordLinesSnoc(urls: seq<string>, stamps: seq<DateTime>, url: string, now: DateTime)
    requires |urls| == |stamps|
    ensures RecordLines(urls + [url], stamps + [now]) == RecordLines(urls, stamps) + [RecordLine(url, now)]
  {
  }

  /** Reloading lines written for safe URLs gives back exactly those URLs. */
  lemma {:induction false} OpenedRecordLines(urls: seq<string>, stamps: seq<DateTime>)
    requires |urls| == |stamps|
    requires forall k :: 0 <= k < |urls| ==> IsSafeUrl(urls[k])
    ensures Opened(RecordLines(urls, stamps)) == Elems(urls)
  {
    if urls != [] {
      var n := |urls| - 1;
      var front := RecordLines(urls[..n], stamps[..n]);
      OpenedRecordLines(urls[..n], stamps[..n]);
      RecordLinesSnoc(urls[..n], stamps[..n], urls[n], stamps[n]);
      DropLast(urls);
      DropLast(stamps);
      OpenedRecordSnoc(front, urls[n], stamps[n]);
      ElemsSnoc(urls[..n], urls[n]);
    }
  }

  /** Appending the record of a safe URL adds exactly that URL to the loaded set. */
  lemma OpenedRecordSnoc(lines: seq<string>, url: string, now: DateTime)
    requires IsSafeUrl(url)
    ensures Opened(lines + [RecordLine(url, now)]) == Opened(lines) + {url}
  {
    OpenedAppend(lines, [RecordLine(url, now)]);
    RecordRoundTrip(url, now);
  }

  lemma DropLast<T>(s: seq<T>)
    requires s != []
    ensures s[..|s| - 1] + [s[|s| - 1]] == s
  {
  }

  /** The set of elements of a list. */
  function Elems(s: seq<string>): set<string> {
    set x | x in s
  }

  lemma ElemsSnoc(s: seq<string>, x: string)
    ensures Elems(s + [x]) == Elems(s) + {x}
  {
  }

  lemma ElemsStep(s: seq<string>, i: nat)
    requires i < |s|
    ensures Elems(s[..i + 1]) == Elems(s[..i]) + {s[i]}
  {
    assert s[..i + 1] == s[..i] + [s[i]];
    ElemsSnoc(s[..i], s[i]);
  }

  /**
   * After a run over a list of safe URLs, reloading the log gives the set the
   * run ends with: what was loaded plus every URL of the list.
   */
  lemma ReloadAfterRun(log: Option<seq<string>>, urls: seq<string>, stamps: seq<DateTime>)
    requires |stamps| == |NewUrls(urls, Opened(LogLines(log)))|
    requires forall k :: 0 <= k < |urls| ==> IsSafeUrl(urls[k])
    ensures Opened(LogLines(Appended(log, RecordLines(NewUrls(urls, Opened(LogLines(log))), stamps))))
         == Opened(LogLines(log)) + Elems(urls)
  {
    var start := LogLines(log);
    var added := NewUrls(urls, Opened(start));
    NewUrlsCover(urls, Opened(start));
    if added != [] {
      NewUrlsSafe(urls, Opened(start));
      OpenedRecordLines(added, stamps);
      OpenedAppend(start, RecordLines(added, stamps));
    }
  }

  /** Together with what it had already seen, a run has seen every URL of the list. */
  lemma NewUrlsCover(urls: seq<string>, seen: set<string>)
    ensures seen + Elems(NewUrls(urls, seen)) == seen + Elems(urls)
  {
    forall x ensures x in seen + Elems(NewUrls(urls, seen)) <==> x in seen + Elems(urls) {
      NewUrlsMembers(urls, seen, x);
      assert x in Elems(urls) <==> x in urls;
      assert x in Elems(NewUrls(urls, seen)) <==> x in NewUrls(urls, seen);
    }
  }

  lemma NewUrlsSafe(urls: seq<string>, seen: set<string>)
    requires forall k :: 0 <= k < |urls| ==> IsSafeUrl(urls[k])
    ensures forall k :: 0 <= k < |NewUrls(urls, seen)| ==> IsSafeUrl(NewUrls(urls, seen)[k])
  {
    forall k | 0 <= k < |NewUrls(urls, seen)| ensures IsSafeUrl(NewUrls(urls, seen)[k]) {
      NewUrlsMembers(urls, seen, NewUrls(urls, seen)[k]);
    }
  }

  /** The first `n` readings of the clock. */
  function Readings(clock: nat -> DateTime, n: nat): (ts: seq<DateTime>)
    ensures |ts| == n
  {
    seq(n, k requires 0 <= k < n => clock(k))
  }

  lemma ReadingsSnoc(clock: nat -> DateTime, n: nat)
    ensures Readings(clock, n + 1) == Readings(clock, n) + [clock(n)]
  {
  }

  /** The log with `extra` appended; appending nothing leaves a missing log missing. */
  function Appended(log: Option<seq<string>>, extra: seq<string>): Option<seq<string>> {
    if extra == [] then log else Some(LogLines(log) + extra)
  }

  /**
   * The URLs a run opens when `urls` is processed in order against the set
   * `seen`: a URL is opened when neither `seen` nor an earlier URL of the
   * list holds it.
   */
  function NewUrls(urls: seq<string>, seen: set<string>): (news: seq<string>)
  {
    if urls == [] then []
    else
      var n := |urls| - 1;
      NewUrls(urls[..n], seen) + (if urls[n] in seen || urls[n] in urls[..n] then [] else [urls[n]])
  }

  /** Processing one more URL of the list. */
  lemma NewUrlsStep(urls: seq<string>, seen: set<string>, i: nat)
    requires i < |urls|
    ensures NewUrls(urls[..i + 1], seen)
         == NewUrls(urls[..i], seen) + (if urls[i] in seen || urls[i] in Elems(urls[..i]) then [] else [urls[i]])
  {
    assert urls[..i + 1][..i] == urls[..i];
  }

  /** The list "a.com", "b.com", "a.com" against an empty set opens "a.com" and "b.com", once each. */
  lemma DuplicateInputExample()
    ensures NewUrls(["a.com", "b.com", "a.com"], {}) == ["a.com", "b.com"]
  {
    var urls := ["a.com", "b.com", "a.com"];
    assert urls[..2][..1] == urls[..1] && urls[..1][..0] == [];
    assert NewUrls(urls[..1], {}) == ["a.com"];
    assert NewUrls(urls[..2], {}) == ["a.com", "b.com"];
    assert urls[..2] == ["a.com", "b.com"];
  }

  /** A run opens exactly the URLs of the list that were not yet opened. */
  lemma {:induction false} NewUrlsMembers(urls: seq<string>, seen: set<string>, x: string)
    ensures x in NewUrls(urls, seen) <==> x in urls && x !in seen
  {
    if urls != [] {
      var n := |urls| - 1;
      NewUrlsMembers(urls[..n], seen, x);
      assert urls == urls[..n] + [urls[n]];
    }
  }

  predicate Distinct(s: seq<string>) {
    forall i, j :: 0 <= i < j < |s| ==> s[i] != s[j]
  }

  /** No URL is opened twice in one run, whatever the list repeats. */
  lemma {:induction false} NewUrlsDistinct(urls: seq<string>, seen: set<string>)
    ensures Distinct(NewUrls(urls, seen))
  {
    if urls != [] {
      var n := |urls| - 1;
      NewUrlsDistinct(urls[..n], seen);
      NewUrlsMembers(urls[..n], seen, urls[n]);
    }
  }

  /** The index of the first occurrence of `x` in `s`. */
  function IndexOf(s: seq<string>, x: string): (i: nat)
    requires x in s
    ensures i < |s| && s[i] == x && x !in s[..i]
  {
    if s[0] == x then 0 else 1 + IndexOf(s[1..], x)
  }

  lemma IndexOfPrefix(s: seq<string>, n: nat, x: string)
    requires n <= |s| && x in s[..n]
    ensures IndexOf(s, x) == IndexOf(s[..n], x)
  {
    var j := IndexOf(s[..n], x);
    assert s[..n][..j] == s[..j];
  }

  /** Both occur in `s`, and `x` occurs first before `y` does. */
  predicate OccursFirstBefore(s: seq<string>, x: string, y: string) {
    x in s && y in s && IndexOf(s, x) < IndexOf(s, y)
  }

  /** The URLs are opened in the order of their first occurrence in the list. */
  lemma {:induction false} NewUrlsOrder(urls: seq<string>, seen: set<string>)
    ensures forall i, j :: 0 <= i < j < |NewUrls(urls, seen)| ==>
      OccursFirstBefore(urls, NewUrls(urls, seen)[i], NewUrls(urls, seen)[j])
  {
    if urls != [] {
      var n := |urls| - 1;
      var p := NewUrls(urls[..n], seen);
      var r := NewUrls(urls, seen);
      assert r == p + (if urls[n] in seen || urls[n] in urls[..n] then [] else [urls[n]]);
      NewUrlsOrder(urls[..n], seen);
      forall i, j | 0 <= i < j < |r| ensures OccursFirstBefore(urls, r[i], r[j]) {
        assert i < |p| && r[i] == p[i];
        NewUrlsMembers(urls[..n], seen, r[i]);
        IndexOfPrefix(urls, n, r[i]);
        if j < |p| {
          assert r[j] == p[j];
          NewUrlsMembers(urls[..n], seen, r[j]);
          IndexOfPrefix(urls, n, r[j]);
        } else {
          assert r[j] == urls[n] && urls[n] !in urls[..n];
          assert forall k :: 0 <= k < n ==> urls[..n][k] == urls[k];
        }
      }
    }
  }
}
