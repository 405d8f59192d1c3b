/**
 * The tracker's state and its steps: the startup block (rollover check and
 * load), `open_url` and `open_urls_from_file`. The log file is `log`, the
 * module-level `opened_urls` set is `openedUrls`, and each browser launch is the
 * URL appended to `tabs`.
 */
module Opensites {
  import opened Wrappers
  import opened Text
  import opened DateTimes
  import opened OpenedLog

  class Tracker {
    /** The log file `opened_urls.txt`, line by line; `None` while it does not exist. */
    var log: Option<seq<string>>
    /** The in-memory set `opened_urls`. */
    var openedUrls: set<string>
    /** The URLs handed to the browser with `open_new_tab`, in order. */
    var tabs: seq<string>

    /** The log as the startup block left it. */
    ghost var startLog: Option<seq<string>>
    /** The set loaded at startup. */
    ghost var loaded: set<string>
    /** The clock readings written with the records of `tabs`. */
    ghost var stamps: seq<DateTime>

    /**
     * The run's invariant: the set is the loaded set plus the opened tabs;
     * no URL was opened twice, nor one loaded at startup; and the log is the
     * startup log followed by one record per tab.
     */
    ghost predicate Valid()
      reads this
    {
      Consistent(startLog, loaded, stamps, log, openedUrls, tabs)
    }

    /**
     * The module-level startup code: the rollover check on the log as found
     * (lines 15-33), then the load of `opened_urls` (lines 36-40).
     */
    constructor (initialLog: Option<seq<string>>, today: Date)
      ensures Valid()
      ensures log == Rollover(initialLog, today) && startLog == log
      ensures openedUrls == Opened(LogLines(log)) && loaded == openedUrls
      ensures LogLines(log) == [] ==> openedUrls == {}
      ensures tabs == []
    {
      var current := initialLog;
      if current.Some? {
        var lines := Records(current.value);
        if lines != [] {
          var parts := Split(lines[0]);
          if |parts| == 2 {
            match ParseStamp(parts[1]) {
              case None =>
                current := Some([]);
              case Some(fileDate) =>
                if fileDate.date != today {
                  current := Some([]);
                }
            }
          }
        }
      }
      log := current;
      openedUrls := if current.Some? then Opened(current.value) else {};
      tabs := [];
      startLog := current;
      loaded := Opened(LogLines(current));
      stamps := [];
    }

    /**
     * `open_url(url)`, with `now` the clock reading used for the record. A
     * URL already in the set changes nothing; a new one is opened in a tab,
     * added to the set and logged with one record line.
     */
    method OpenUrl(url: string, now: DateTime)
      requires Valid()
      modifies this
      ensures Valid()
      ensures startLog == old(startLog) && loaded == old(loaded)
      ensures url in old(openedUrls) ==>
        log == old(log) && openedUrls == old(openedUrls) && tabs == old(tabs) && stamps == old(stamps)
      ensures url !in old(openedUrls) ==>
        && tabs == old(tabs) + [url]
        && openedUrls == old(openedUrls) + {url}
        && log == Some(LogLines(old(log)) + [RecordLine(url, now)])
        && stamps == old(stamps) + [now]
    {
      if url in openedUrls {
        return;
      }
      ConsistentOpen(startLog, loaded, stamps, log, openedUrls, tabs, url, now);
      tabs := tabs + [url];
      openedUrls := openedUrls + {url};
      log := Some(LogLines(log) + [RecordLine(url, now)]);
      stamps := stamps + [now];
    }

    /**
     * `open_urls_from_file()` on the input file `input` (`None` when it is
     * missing). The k-th record the call writes is stamped `clock(k)`.
     */
    method OpenUrlsFromFile(input: Option<seq<string>>, clock: nat -> DateTime)
      requires Valid()
      modifies this
      ensures Valid()
      ensures startLog == old(startLog) && loaded == old(loaded)
      ensures input.None? ==>
        log == old(log) && openedUrls == old(openedUrls) && tabs == old(tabs) && stamps == old(stamps)
      ensures input.Some? ==>
        var urls := Records(input.value);
        var added := NewUrls(urls, old(openedUrls));
        && tabs == old(tabs) + added
        && openedUrls == old(openedUrls) + Elems(urls)
        && log == Appended(old(log), RecordLines(added, Readings(clock, |added|)))
        && stamps == old(stamps) + Readings(clock, |added|)
    {
      if input.None? {
        return;
      }
      OpenAll(Records(input.value), clock);
    }

    /**
     * The loop of `open_urls_from_file()`: `open_url` on each URL of the list
     * in turn, the k-th record written stamped `clock(k)`.
     */
    method OpenAll(urls: seq<string>, clock: nat -> DateTime)
      requires Valid()
      modifies this
      ensures Valid()
      ensures startLog == old(startLog) && loaded == old(loaded)
      ensures var added := NewUrls(urls, old(openedUrls));
        && tabs == old(tabs) + added
        && openedUrls == old(openedUrls) + Elems(urls)
        && log == Appended(old(log), RecordLines(added, Readings(clock, |added|)))
        && stamps == old(stamps) + Readings(clock, |added|)
    {
      var i, base := 0, |tabs|;
      while i < |urls|
        invariant Valid()
        invariant startLog == old(startLog) && loaded == old(loaded)
        invariant base == |old(tabs)|
        invariant Progress(urls, i, old(openedUrls), old(tabs), old(stamps), clock, tabs, stamps, openedUrls)
      {
        ghost var tabsPre, stampsPre, seenPre := tabs, stamps, openedUrls;
        OpenUrl(urls[i], clock(|tabs| - base));
        LoopStep(urls, i, old(openedUrls), old(tabs), old(stamps), clock,
                 tabsPre, stampsPre, seenPre, tabs, stamps, openedUrls);
        i := i + 1;
      }
      assert urls[..i] == urls;
      var added := NewUrls(urls, old(openedUrls));
      AppendedRecordLines(startLog, old(tabs), old(stamps), added, Readings(clock, |added|));
    }
  }

  /**
   * The run's invariant over the tracker's state: the set is the loaded set
   * plus the opened tabs; no URL was opened twice, nor one loaded at startup;
   * and the log is the startup log followed by one record per tab.
   */
  ghost predicate Consistent(startLog: Option<seq<string>>, loaded: set<string>, stamps: seq<DateTime>,
                             log: Option<seq<string>>, openedUrls: set<string>, tabs: seq<string>)
  {
    && openedUrls == loaded + Elems(tabs)
    && Distinct(tabs)
    && (forall k :: 0 <= k < |tabs| ==> tabs[k] !in loaded)
    && |stamps| == |tabs|
    && log == Appended(startLog, RecordLines(tabs, stamps))
  }

  /** Opening a URL not yet in the set keeps the invariant. */
  lemma ConsistentOpen(startLog: Option<seq<string>>, loaded: set<string>, stamps: seq<DateTime>,
                       log: Option<seq<string>>, openedUrls: set<string>, tabs: seq<string>,
                       url: string, now: DateTime)
    requires Consistent(startLog, loaded, stamps, log, openedUrls, tabs) && url !in openedUrls
    ensures Consistent(startLog, loaded, stamps + [now], Some(LogLines(log) + [RecordLine(url, now)]),
                       openedUrls + {url}, tabs + [url])
  {
    ElemsSnoc(tabs, url);
    RecordLinesSnoc(tabs, stamps, url, now);
    var before := RecordLines(tabs, stamps);
    assert LogLines(log) == LogLines(startLog) + before;
    assert url !in Elems(tabs) && url !in loaded;
    var tabs' := tabs + [url];
    assert Distinct(tabs') by {
      forall i, j | 0 <= i < j < |tabs'| ensures tabs'[i] != tabs'[j] {
        if j == |tabs| {
          assert tabs'[i] == tabs[i] && tabs[i] in Elems(tabs);
        }
      }
    }
    assert openedUrls + {url} == loaded + Elems(tabs');
    assert forall k :: 0 <= k < |tabs'| ==> tabs'[k] !in loaded;
    assert |stamps + [now]| == |tabs'|;
    var line := RecordLine(url, now);
    assert RecordLines(tabs', stamps + [now]) == before + [line];
    assert LogLines(startLog) + before + [line] == LogLines(startLog) + (before + [line]);
  }

  /**
   * Where the loop of `open_urls_from_file` stands after the first `i` URLs:
   * the tabs opened and the readings taken so far, and the set grown by
   * those URLs.
   */
  ghost predicate Progress(urls: seq<string>, i: nat, seen0: set<string>, tabs0: seq<string>, stamps0: seq<DateTime>,
                           clock: nat -> DateTime, tabs: seq<string>, stamps: seq<DateTime>, seen: set<string>)
  {
    && i <= |urls|
    && |tabs0| <= |tabs|
    && tabs == tabs0 + NewUrls(urls[..i], seen0)
    && stamps == stamps0 + Readings(clock, |tabs| - |tabs0|)
    && seen == seen0 + Elems(urls[..i])
  }

  /** One turn of the loop of `open_urls_from_file`, on the state before and after `open_url`. */
  lemma LoopStep(urls: seq<string>, i: nat, seen0: set<string>, tabs0: seq<string>, stamps0: seq<DateTime>,
                 clock: nat -> DateTime, tabsPre: seq<string>, stampsPre: seq<DateTime>, seenPre: set<string>,
                 tabsPost: seq<string>, stampsPost: seq<DateTime>, seenPost: set<string>)
    requires i < |urls| && Progress(urls, i, seen0, tabs0, stamps0, clock, tabsPre, stampsPre, seenPre)
    requires urls[i] in seenPre ==> tabsPost == tabsPre && stampsPost == stampsPre && seenPost == seenPre
    requires urls[i] !in seenPre ==>
      && tabsPost == tabsPre + [urls[i]]
      && stampsPost == stampsPre + [clock(|tabsPre| - |tabs0|)]
      && seenPost == seenPre + {urls[i]}
    ensures Progress(urls, i + 1, seen0, tabs0, stamps0, clock, tabsPost, stampsPost, seenPost)
  {
    var k := |tabsPre| - |tabs0|;
    NewUrlsStep(urls, seen0, i);
    ElemsStep(urls, i);
    if urls[i] !in seenPre {
      SnocAssoc(tabs0, NewUrls(urls[..i], seen0), urls[i]);
      ReadingsSnoc(clock, k);
      SnocAssoc(stamps0, Readings(clock, k), clock(k));
    }
  }

  lemma SnocAssoc<T>(a: seq<T>, b: seq<T>, x: T)
    ensures (a + b) + [x] == a + (b + [x])
  {
  }

  /** Appending the records of `t0` and then those of `a` appends the records of `t0 + a`. */
  lemma AppendedRecordLines(start: Option<seq<string>>, t0: seq<string>, s0: seq<DateTime>,
                            a: seq<string>, r: seq<DateTime>)
    requires |t0| == |s0| && |a| == |r|
    ensures Appended(start, RecordLines(t0 + a, s0 + r))
         == Appended(Appended(start, RecordLines(t0, s0)), RecordLines(a, r))
  {
    RecordLinesAppend(t0, s0, a, r);
    AppendedTwice(start, RecordLines(t0, s0), RecordLines(a, r));
  }

  /** The record lines of two lists one after the other are those of the first, then the second. */
  lemma RecordLinesAppend(t0: seq<string>, s0: seq<DateTime>, a: seq<string>, r: seq<DateTime>)
    requires |t0| == |s0| && |a| == |r|
    ensures RecordLines(t0 + a, s0 + r) == RecordLines(t0, s0) + RecordLines(a, r)
  {
    var x, y := RecordLines(t0, s0), RecordLines(a, r);
    forall k | 0 <= k < |t0| + |a| ensures RecordLines(t0 + a, s0 + r)[k] == (x + y)[k] {
      if k < |t0| {
        assert (t0 + a)[k] == t0[k] && (s0 + r)[k] == s0[k];
      } else {
        assert (t0 + a)[k] == a[k - |t0|] && (s0 + r)[k] == r[k - |t0|];
      }
    }
  }

  /** Appending `x` and then `y` to a log appends `x + y`. */
  lemma AppendedTwice(start: Option<seq<string>>, x: seq<string>, y: seq<string>)
    ensures Appended(start, x + y) == Appended(Appended(start, x), y)
  {
    if x == [] {
      assert x + y == y;
    } else if y == [] {
      assert x + y == x;
    } else {
      assert LogLines(start) + x + y == LogLines(start) + (x + y);
    }
  }

  /**
   * One run of the program: the startup block, then `open_urls_from_file()`.
   * Returns the log afterwards and the URLs opened in the browser.
   */
  method RunOnce(initialLog: Option<seq<string>>, today: Date, input: Option<seq<string>>, clock: nat -> DateTime)
    returns (finalLog: Option<seq<string>>, launched: seq<string>)
    ensures var start := Rollover(initialLog, today);
      && launched == (if input.Some? then NewUrls(Records(input.value), Opened(LogLines(start))) else [])
      && finalLog == Appended(start, RecordLines(launched, Readings(clock, |launched|)))
    ensures Distinct(launched)
    ensures input.None? ==> finalLog == Rollover(initialLog, today) && launched == []
    ensures input.Some? && (forall k :: 0 <= k < |Records(input.value)| ==> IsSafeUrl(Records(input.value)[k])) ==>
      Opened(LogLines(finalLog)) == Opened(LogLines(Rollover(initialLog, today))) + Elems(Records(input.value))
  {
    var tracker := new Tracker(initialLog, today);
    tracker.OpenUrlsFromFile(input, clock);
    finalLog, launched := tracker.log, tracker.tabs;
    if input.Some? && forall k :: 0 <= k < |Records(input.value)| ==> IsSafeUrl(Records(input.value)[k]) {
      ReloadAfterRun(Rollover(initialLog, today), Records(input.value), Readings(clock, |launched|));
    }
  }
}
