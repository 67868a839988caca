/**
 * The weekly command (`cmd/weekly/main.go`): from the tracking state it
 * derives the week window ending on the latest recorded day, the radar of
 * tickers that surfaced or rotated out between consecutive recorded days,
 * the convictions, the quick flips, and the forward watchlist.
 *
 * Loading the state, template rendering, printing and writing the report
 * file are left to the caller; the run returns the report data and the
 * path it would be written to.
 */
module Weekly {
  import opened Wrappers
  import opened Strings
  import opened Dates
  import opened Holdings
  import Daily

  const SurfacedNote: string := "surfaced this week"
  const RotatedOutNote: string := "rotated out this week"
  const QuickFlipReason: string := "recent quick flip"

  /** A radar row: `{"Ticker": ..., "Note": ...}`. */
  datatype RadarEntry = RadarEntry(ticker: string, note: string)

  /** A watchlist row: `{"Ticker": ..., "Reason": ...}`. */
  datatype WatchItem = WatchItem(ticker: string, reason: string)

  /** The data handed to the weekly template (the Sector Pulse list is always empty), and the output path. */
  datatype WeeklyReport = WeeklyReport(
    weekStart: string,
    weekEnd: string,
    radar: seq<RadarEntry>,
    convictions: seq<Tenured>,
    quickFlips: seq<Tenured>,
    watchlist: seq<WatchItem>,
    outPath: string)

  /** The first day of the week window: six calendar days before `latest`. */
  function WeekStart(latest: string): string
  {
    FormatDate(DaysBefore(ParseOrZero(latest), 6))
  }

  /**
   * For a parsable latest date other than 0000-01-01 .. 0000-01-06 the
   * window start is itself a parsable date exactly six days earlier.
   */
  lemma WeekStartSixDaysBefore(latest: string)
    requires ParseDate(latest).Some?
    requires ParseDate(latest).value.year >= 1 || ParseDate(latest).value.month > 1 || ParseDate(latest).value.day > 6
    ensures ParseDate(WeekStart(latest)).Some?
    ensures DayNumber(ParseDate(WeekStart(latest)).value) == DayNumber(ParseDate(latest).value) - 6
    ensures TenorDays(WeekStart(latest), latest) == 6
  {
    var end := ParseDate(latest).value;
    var start := DaysBefore(end, 6);
    assert WeekStart(latest) == FormatDate(start);
    WindowStart(end, 6);
    assert TenorDays(FormatDate(start), latest) == RoundedDays(DayNumber(end) - DayNumber(start));
  }

  /**
   * For 0000-01-01 .. 0000-01-06 the window start falls in year -1, which
   * Go formats with a leading '-', so it does not parse back.
   */
  lemma WeekStartOfFirstDays(latest: string)
    requires ParseDate(latest).Some? && ParseDate(latest).value.year == 0
    requires ParseDate(latest).value.month == 1 && ParseDate(latest).value.day <= 6
    ensures ParseDate(WeekStart(latest)).None?
  {
    var end := ParseDate(latest).value;
    var start := DaysBefore(end, 6);
    DaysBeforeIntoPriorYear(end, 6);
    DaysBeforeNearYear(end, 6);
    assert start.year == -1;
    assert |FormatDate(start)| == 11;
  }

  /**
   * Going back up to 28 days from a date of year 0..9999 gives a date that
   * formats and parses back, unless it leaves year 0.
   */
  lemma WindowStart(end: Date, n: nat)
    requires ValidDate(end) && 0 <= end.year <= 9999 && n <= 28
    requires end.year >= 1 || n < DayOfYear(end)
    ensures ParseDate(FormatDate(DaysBefore(end, n))) == Some(DaysBefore(end, n))
    ensures DayNumber(DaysBefore(end, n)) == DayNumber(end) - n
  {
    if end.year >= 1 {
      DaysBeforeNearYear(end, n);
    } else {
      DaysBeforeWithinYear(end, n);
    }
    DaysBeforeIsNDaysEarlier(end, n);
    ParseFormatRoundTrip(DaysBefore(end, n));
  }

  /** An unparsable latest date leaves Go's zero time, so the window starts on "0000-12-26". */
  lemma WeekStartOfUnparsable(latest: string)
    requires ParseDate(latest).None?
    ensures WeekStart(latest) == "0000-12-26"
  {
    var d := Date(1, 1, 1);
    assert PrevDay(d) == Date(0, 12, 31);
    assert DaysBefore(d, 6) == Date(0, 12, 26);
  }

  /** Radar rows for one list of tickers, all with the same note. */
  function Notes(tickers: seq<string>, note: string): (rows: seq<RadarEntry>)
    ensures |rows| == |tickers|
    ensures forall i :: 0 <= i < |tickers| ==> rows[i] == RadarEntry(tickers[i], note)
  {
    if tickers == [] then [] else [RadarEntry(tickers[0], note)] + Notes(tickers[1..], note)
  }

  /** The radar rows for one pair of consecutive recorded days. */
  ghost function PairRadar(h: map<string, seq<string>>, prevDay: string, day: string): seq<RadarEntry>
  {
    var prev, today := HoldingsOn(h, prevDay), HoldingsOn(h, day);
    Notes(AddedTickers(prev, today), SurfacedNote) + Notes(RemovedTickers(prev, today), RotatedOutNote)
  }

  /** The rows `pair` gives for each pair of consecutive `dates`, pairs taken in order. */
  ghost function RadarWith(dates: seq<string>, pair: (string, string) -> seq<RadarEntry>): seq<RadarEntry>
  {
    if |dates| < 2 then []
    else RadarWith(dates[..|dates| - 1], pair) + pair(dates[|dates| - 2], dates[|dates| - 1])
  }

  /** The radar over consecutive pairs of recorded days. */
  ghost function RadarOf(dates: seq<string>, h: map<string, seq<string>>): seq<RadarEntry>
  {
    RadarWith(dates, (prevDay, day) => PairRadar(h, prevDay, day))
  }

  /** Row `e` records a change from `prev` to `today`: a surfaced or a rotated-out ticker. */
  ghost predicate PairChanged(prev: seq<string>, today: seq<string>, e: RadarEntry)
  {
    || (e.note == SurfacedNote && e.ticker in today && e.ticker !in prev)
    || (e.note == RotatedOutNote && e.ticker in prev && e.ticker !in today)
  }

  /** Row `e` records a change between `dates[i-1]` and `dates[i]`. */
  ghost predicate ChangedAt(dates: seq<string>, h: map<string, seq<string>>, i: int, e: RadarEntry)
  {
    1 <= i < |dates| && PairChanged(HoldingsOn(h, dates[i - 1]), HoldingsOn(h, dates[i]), e)
  }

  lemma NotesMembers(tickers: seq<string>, note: string, e: RadarEntry)
    ensures e in Notes(tickers, note) <==> e.note == note && e.ticker in tickers
  {
    var rows := Notes(tickers, note);
    if e in rows {
      var i :| 0 <= i < |rows| && rows[i] == e;
    }
    if e.note == note && e.ticker in tickers {
      var i :| 0 <= i < |tickers| && tickers[i] == e.ticker;
      assert rows[i] == e;
    }
  }

  lemma PairRadarMembers(h: map<string, seq<string>>, prevDay: string, day: string, e: RadarEntry)
    ensures e in PairRadar(h, prevDay, day) <==> PairChanged(HoldingsOn(h, prevDay), HoldingsOn(h, day), e)
  {
    var prev, today := HoldingsOn(h, prevDay), HoldingsOn(h, day);
    var a, r := AddedTickers(prev, today), RemovedTickers(prev, today);
    NotesMembers(a, SurfacedNote, e);
    NotesMembers(r, RotatedOutNote, e);
  }

  /** Row `e` comes from the pair of days ending at `dates[i]`. */
  ghost predicate FromPair(dates: seq<string>, pair: (string, string) -> seq<RadarEntry>, i: int, e: RadarEntry)
  {
    1 <= i < |dates| && e in pair(dates[i - 1], dates[i])
  }

  /** Dropping the last day keeps the rows of every earlier pair. */
  lemma FromPairInit(dates: seq<string>, pair: (string, string) -> seq<RadarEntry>, i: int, e: RadarEntry)
    requires |dates| >= 1 && i < |dates| - 1
    ensures FromPair(dates[..|dates| - 1], pair, i, e) <==> FromPair(dates, pair, i, e)
  {
    if 1 <= i {
      var init := dates[..|dates| - 1];
      assert init[i - 1] == dates[i - 1] && init[i] == dates[i];
    }
  }

  /** Every row of `RadarWith` comes from one pair of consecutive days. */
  lemma {:induction false} RadarWithSound(dates: seq<string>, pair: (string, string) -> seq<RadarEntry>, e: RadarEntry)
    requires e in RadarWith(dates, pair)
    ensures exists i :: FromPair(dates, pair, i, e)
  {
    var n := |dates|;
    var init := dates[..n - 1];
    if e in RadarWith(init, pair) {
      RadarWithSound(init, pair, e);
      var i :| FromPair(init, pair, i, e);
      FromPairInit(dates, pair, i, e);
    } else {
      assert FromPair(dates, pair, n - 1, e);
    }
  }

  /** Every row of every pair of consecutive days is in `RadarWith`. */
  lemma {:induction false} RadarWithComplete(dates: seq<string>, pair: (string, string) -> seq<RadarEntry>, i: int, e: RadarEntry)
    requires FromPair(dates, pair, i, e)
    ensures e in RadarWith(dates, pair)
  {
    var n := |dates|;
    if i < n - 1 {
      FromPairInit(dates, pair, i, e);
      RadarWithComplete(dates[..n - 1], pair, i, e);
    }
  }

  /**
   * A row is on the radar exactly when its ticker surfaced (or rotated out,
   * by its note) between two consecutive recorded days.
   */
  lemma RadarMembers(dates: seq<string>, h: map<string, seq<string>>, e: RadarEntry)
    ensures e in RadarOf(dates, h) <==> exists i :: ChangedAt(dates, h, i, e)
  {
    var pair := (prevDay, day) => PairRadar(h, prevDay, day);
    assert RadarOf(dates, h) == RadarWith(dates, pair);
    if e in RadarOf(dates, h) {
      RadarWithSound(dates, pair, e);
      var i :| FromPair(dates, pair, i, e);
      PairRadarMembers(h, dates[i - 1], dates[i], e);
      assert ChangedAt(dates, h, i, e);
    }
    if i :| ChangedAt(dates, h, i, e) {
      PairRadarMembers(h, dates[i - 1], dates[i], e);
      RadarWithComplete(dates, pair, i, e);
    }
  }

  /** Each further recorded day appends that pair's rows after the earlier ones. */
  lemma RadarWithStep(dates: seq<string>, pair: (string, string) -> seq<RadarEntry>, i: int)
    requires 1 <= i < |dates|
    ensures RadarWith(dates[..i + 1], pair) == RadarWith(dates[..i], pair) + pair(dates[i - 1], dates[i])
  {
    var d := dates[..i + 1];
    assert d[..|d| - 1] == dates[..i];
    assert d[|d| - 2] == dates[i - 1] && d[|d| - 1] == dates[i];
  }

  lemma RadarOfStep(dates: seq<string>, h: map<string, seq<string>>, i: int)
    requires 1 <= i < |dates|
    ensures RadarOf(dates[..i + 1], h) == RadarOf(dates[..i], h) + PairRadar(h, dates[i - 1], dates[i])
  {
    RadarWithStep(dates, (prevDay, day) => PairRadar(h, prevDay, day), i);
  }

  /** The radar loop over consecutive recorded days. */
  method Radar(dates: seq<string>, h: map<string, seq<string>>) returns (radar: seq<RadarEntry>)
    ensures radar == RadarOf(dates, h)
  {
    radar := [];
    if |dates| < 2 {
      return;
    }
    var i := 1;
    while i < |dates|
      invariant 1 <= i <= |dates|
      invariant radar == RadarOf(dates[..i], h)
    {
      var prev := HoldingsOn(h, dates[i - 1]);
      var today := HoldingsOn(h, dates[i]);
      var added, removed := Diff(prev, today);
      RadarOfStep(dates, h, i);
      radar := radar + (Notes(added, SurfacedNote) + Notes(removed, RotatedOutNote));
      i := i + 1;
    }
    assert dates[..i] == dates;
  }

  /** A weekly conviction: a first-seen ticker whose tenure up to its last-seen date ("" if none) is at least 15 days. */
  ghost predicate IsConviction(fs: map<string, string>, ls: map<string, string>, c: Tenured)
  {
    && c.ticker in fs
    && c.days == TenorDays(fs[c.ticker], Get(ls, c.ticker))
    && c.days >= Daily.ConvictionDays
  }

  /** The weekly convictions are exactly the daily ones: a missing last-seen date parses to nothing and counts 0 days. */
  lemma ConvictionsAgree(fs: map<string, string>, ls: map<string, string>, c: Tenured)
    ensures IsConviction(fs, ls, c) <==> Daily.IsConviction(fs, ls, c)
  {
    if c.ticker !in ls {
      assert ParseDate("").None?;
    }
  }

  /** The convictions loop over `FirstSeen`. */
  method Convictions(fs: map<string, string>, ls: map<string, string>) returns (cs: seq<Tenured>)
    ensures forall c :: c in cs <==> IsConviction(fs, ls, c)
    ensures Daily.DistinctTickers(cs)
  {
    cs := [];
    var rest := fs.Keys;
    while rest != {}
      invariant rest <= fs.Keys
      invariant forall c :: c in cs <==> IsConviction(fs, ls, c) && c.ticker !in rest
      invariant Daily.DistinctTickers(cs)
      decreases rest
    {
      var ticker :| ticker in rest;
      var days := TenorDays(fs[ticker], Get(ls, ticker));
      if days >= Daily.ConvictionDays {
        assert IsConviction(fs, ls, Tenured(ticker, days));
        cs := cs + [Tenured(ticker, days)];
      }
      rest := rest - {ticker};
    }
  }

  /**
   * A weekly quick flip: a first-seen ticker last seen before the latest
   * recorded day (by string order) after a tenure of at most 10 days.
   */
  ghost predicate IsQuickFlip(fs: map<string, string>, ls: map<string, string>, latest: string, q: Tenured)
  {
    && q.ticker in fs
    && Less(Get(ls, q.ticker), latest)
    && q.days == TenorDays(fs[q.ticker], Get(ls, q.ticker))
    && q.days <= Daily.QuickFlipDays
  }

  /** The quick-flips loop over `FirstSeen`. */
  method QuickFlips(fs: map<string, string>, ls: map<string, string>, latest: string) returns (qs: seq<Tenured>)
    ensures forall q :: q in qs <==> IsQuickFlip(fs, ls, latest, q)
    ensures Daily.DistinctTickers(qs)
  {
    qs := [];
    var rest := fs.Keys;
    while rest != {}
      invariant rest <= fs.Keys
      invariant forall q :: q in qs <==> IsQuickFlip(fs, ls, latest, q) && q.ticker !in rest
      invariant Daily.DistinctTickers(qs)
      decreases rest
    {
      var ticker :| ticker in rest;
      var lastSeen := Get(ls, ticker);
      var days := TenorDays(fs[ticker], lastSeen);
      if Less(lastSeen, latest) && days <= Daily.QuickFlipDays {
        assert IsQuickFlip(fs, ls, latest, Tenured(ticker, days));
        qs := qs + [Tenured(ticker, days)];
      }
      rest := rest - {ticker};
    }
  }

  /** `w` is the forward watchlist: the radar rows in order, with their notes as reasons, then the quick flips. */
  ghost predicate IsWatchlist(w: seq<WatchItem>, radar: seq<RadarEntry>, quickFlips: seq<Tenured>)
  {
    && |w| == |radar| + |quickFlips|
    && (forall i :: 0 <= i < |radar| ==> w[i] == WatchItem(radar[i].ticker, radar[i].note))
    && (forall i :: 0 <= i < |quickFlips| ==> w[|radar| + i] == WatchItem(quickFlips[i].ticker, QuickFlipReason))
  }

  /** The watchlist loops: the radar rows, then the quick flips. */
  method Watchlist(radar: seq<RadarEntry>, quickFlips: seq<Tenured>) returns (w: seq<WatchItem>)
    ensures |w| == |radar| + |quickFlips|
    ensures forall i :: 0 <= i < |radar| ==> w[i] == WatchItem(radar[i].ticker, radar[i].note)
    ensures forall i :: 0 <= i < |quickFlips| ==> w[|radar| + i] == WatchItem(quickFlips[i].ticker, QuickFlipReason)
    ensures IsWatchlist(w, radar, quickFlips)
  {
    w := [];
    for i := 0 to |radar|
      invariant |w| == i
      invariant forall k :: 0 <= k < i ==> w[k] == WatchItem(radar[k].ticker, radar[k].note)
    {
      w := w + [WatchItem(radar[i].ticker, radar[i].note)];
    }
    for i := 0 to |quickFlips|
      invariant |w| == |radar| + i
      invariant forall k :: 0 <= k < |radar| ==> w[k] == WatchItem(radar[k].ticker, radar[k].note)
      invariant forall k :: 0 <= k < i ==> w[|radar| + k] == WatchItem(quickFlips[k].ticker, QuickFlipReason)
    {
      w := w + [WatchItem(quickFlips[i].ticker, QuickFlipReason)];
    }
  }

  /** `out/weekly-<weekEnd>.md`, with every '/' of the date replaced by '-'. */
  function WeeklyOutPath(weekEnd: string): (p: string)
    ensures |p| == |weekEnd| + 14 && p[..11] == "out/weekly-" && p[|p| - 3..] == ".md"
    ensures '/' !in p[11..]
    ensures '/' !in weekEnd ==> p == "out/weekly-" + weekEnd + ".md"
  {
    ReplaceCharRemoves(weekEnd, '/', '-');
    "out/weekly-" + ReplaceChar(weekEnd, '/', '-') + ".md"
  }

  /**
   * One weekly run over the loaded state: no report for an empty history;
   * otherwise the window ends on the latest recorded day and everything is
   * computed from the whole history.
   */
  method Run(s: State) returns (report: Option<WeeklyReport>)
    ensures report.None? <==> s.holdingsByDay == map[]
    ensures report.Some? ==>
      && report.value.weekEnd == LatestKey(s.holdingsByDay.Keys)
      && report.value.weekStart == WeekStart(report.value.weekEnd)
      && report.value.outPath == WeeklyOutPath(report.value.weekEnd)
    ensures report.Some? ==> report.value.radar == RadarOf(Ordered(s.holdingsByDay.Keys), s.holdingsByDay)
    ensures report.Some? ==> forall c :: c in report.value.convictions <==> IsConviction(s.firstSeen, s.lastSeen, c)
    ensures report.Some? ==>
      forall q :: q in report.value.quickFlips <==> IsQuickFlip(s.firstSeen, s.lastSeen, report.value.weekEnd, q)
    ensures report.Some? ==>
      Daily.DistinctTickers(report.value.convictions) && Daily.DistinctTickers(report.value.quickFlips)
    ensures report.Some? ==> IsWatchlist(report.value.watchlist, report.value.radar, report.value.quickFlips)
  {
    var dates := SortedKeys(s.holdingsByDay);
    if |dates| == 0 {
      assert s.holdingsByDay.Keys == {} by {
        if d :| d in s.holdingsByDay { assert d in dates; }
      }
      return None;
    }
    var latest := dates[|dates| - 1];
    LastOfOrderedIsLatest(s.holdingsByDay.Keys);

    var weekStart := WeekStart(latest);
    var weekEnd := latest;
    var radar := Radar(dates, s.holdingsByDay);
    var convictions := Convictions(s.firstSeen, s.lastSeen);
    var quickFlips := QuickFlips(s.firstSeen, s.lastSeen, latest);
    var watchlist := Watchlist(radar, quickFlips);
    report := Some(WeeklyReport(weekStart, weekEnd, radar, convictions, quickFlips, watchlist, WeeklyOutPath(weekEnd)));
  }
}
