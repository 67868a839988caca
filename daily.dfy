/**
 * The daily command (`cmd/daily/main.go`): records today's holdings in the
 * tracking state, diffs them against the latest earlier day, and when
 * anything changed assembles the daily report: the added and removed
 * tickers, the convictions (held at least 15 days) and the quick flips
 * (removed after at most 10 days).
 *
 * Reading and writing `data/rotations.json` and `data/state.json`, template
 * rendering and printing are left to the caller: the run takes the loaded
 * state and the payload's date and tickers, and returns the report data.
 */
module Daily {
  import opened Wrappers
  import opened Strings
  import opened Dates
  import opened Holdings

  /** A ticker held at least this many days is a conviction. */
  const ConvictionDays: int := 15
  /** A removed ticker held at most this many days is a quick flip. */
  const QuickFlipDays: int := 10

  /** The data handed to the daily template, and the file it is written to. */
  datatype DailyReport = DailyReport(
    date: string,
    added: seq<string>,
    removed: seq<string>,
    convictions: seq<Tenured>,
    quickFlips: seq<Tenured>,
    outPath: string)

  /** No ticker appears twice. */
  ghost predicate DistinctTickers(ts: seq<Tenured>)
  {
    forall i, j :: 0 <= i < j < |ts| ==> ts[i].ticker != ts[j].ticker
  }

  /** A daily conviction: first and last seen dates on record, at least 15 days apart. */
  ghost predicate IsConviction(fs: map<string, string>, ls: map<string, string>, c: Tenured)
  {
    && c.ticker in fs && c.ticker in ls
    && c.days == TenorDays(fs[c.ticker], ls[c.ticker])
    && c.days >= ConvictionDays
  }

  /** The convictions loop over `FirstSeen`, in whatever order the map is walked. */
  method Convictions(fs: map<string, string>, ls: map<string, string>) returns (cs: seq<Tenured>)
    ensures forall c :: c in cs <==> IsConviction(fs, ls, c)
    ensures DistinctTickers(cs)
  {
    cs := [];
    var rest := fs.Keys;
    while rest != {}
      invariant rest <= fs.Keys
      invariant forall c :: c in cs <==> IsConviction(fs, ls, c) && c.ticker !in rest
      invariant DistinctTickers(cs)
      decreases rest
    {
      var ticker :| ticker in rest;
      if ticker in ls {
        var days := TenorDays(fs[ticker], ls[ticker]);
        if days >= ConvictionDays {
          assert IsConviction(fs, ls, Tenured(ticker, days));
          cs := cs + [Tenured(ticker, days)];
        }
      }
      rest := rest - {ticker};
    }
  }

  /** The quick flips among `removed`, in the order of `removed`. */
  ghost function FlipsAmong(removed: seq<string>, fs: map<string, string>, ls: map<string, string>): seq<Tenured>
  {
    if removed == [] then
      []
    else
      var t := removed[|removed| - 1];
      var days := TenorDays(Get(fs, t), Get(ls, t));
      FlipsAmong(removed[..|removed| - 1], fs, ls) + (if days <= QuickFlipDays then [Tenured(t, days)] else [])
  }

  /**
   * A quick flip is exactly a removed ticker whose tenure is at most 10
   * days; a ticker with no first- or last-seen date counts as 0 days.
   */
  lemma {:induction false} FlipsAmongMembers(removed: seq<string>, fs: map<string, string>, ls: map<string, string>)
    ensures forall q :: q in FlipsAmong(removed, fs, ls) <==>
      && q.ticker in removed
      && q.days == TenorDays(Get(fs, q.ticker), Get(ls, q.ticker))
      && q.days <= QuickFlipDays
    ensures |FlipsAmong(removed, fs, ls)| <= |removed|
  {
    if removed != [] {
      var init := removed[..|removed| - 1];
      FlipsAmongMembers(init, fs, ls);
      assert removed == init + [removed[|removed| - 1]];
    }
  }

  /** The quick-flips loop over `removed`. */
  method QuickFlips(removed: seq<string>, fs: map<string, string>, ls: map<string, string>) returns (qs: seq<Tenured>)
    ensures qs == FlipsAmong(removed, fs, ls)
  {
    qs := [];
    for i := 0 to |removed|
      invariant qs == FlipsAmong(removed[..i], fs, ls)
    {
      var t := removed[i];
      assert removed[..i + 1][..i] == removed[..i];
      var days := TenorDays(Get(fs, t), Get(ls, t));
      if days <= QuickFlipDays {
        qs := qs + [Tenured(t, days)];
      }
    }
    assert removed[..|removed|] == removed;
  }

  /** `out/daily-<date>.md`, with every '/' of the date replaced by '-'. */
  function DailyOutPath(date: string): (p: string)
    ensures |p| == |date| + 13 && p[..10] == "out/daily-" && p[|p| - 3..] == ".md"
    ensures '/' !in p[10..]
    ensures '/' !in date ==> p == "out/daily-" + date + ".md"
  {
    ReplaceCharRemoves(date, '/', '-');
    "out/daily-" + ReplaceChar(date, '/', '-') + ".md"
  }

  /**
   * One daily run. The state is updated (and, in the program, saved) before
   * the diff is looked at; only then does an empty diff end the run with no
   * report.
   */
  method Run(s: State, today: string, todayHoldings: seq<string>) returns (report: Option<DailyReport>)
    modifies s
    ensures s.holdingsByDay == old(s.holdingsByDay)[today := todayHoldings]
    ensures s.firstSeen == FirstSeenAfter(old(s.firstSeen), todayHoldings, today)
    ensures s.lastSeen == LastSeenAfter(old(s.lastSeen), todayHoldings, today)
    ensures
      var prev := HoldingsOn(old(s.holdingsByDay), LatestKey(old(s.holdingsByDay).Keys));
      var added, removed := AddedTickers(prev, todayHoldings), RemovedTickers(prev, todayHoldings);
      && (report.None? <==> added == [] && removed == [])
      && (report.Some? ==>
        && report.value.date == today
        && report.value.added == added
        && report.value.removed == removed
        && (forall c :: c in report.value.convictions <==> IsConviction(s.firstSeen, s.lastSeen, c))
        && DistinctTickers(report.value.convictions)
        && report.value.quickFlips == FlipsAmong(removed, s.firstSeen, s.lastSeen)
        && report.value.outPath == DailyOutPath(today))
  {
    var prevDay := PrevDateKey(s, today);
    var prevHoldings := HoldingsOn(s.holdingsByDay, prevDay);

    s.RecordDay(today, todayHoldings);

    var added, removed := Diff(prevHoldings, todayHoldings);
    if |added| == 0 && |removed| == 0 {
      return None;
    }

    var convictions := Convictions(s.firstSeen, s.lastSeen);
    var quickFlips := QuickFlips(removed, s.firstSeen, s.lastSeen);
    report := Some(DailyReport(today, added, removed, convictions, quickFlips, DailyOutPath(today)));
  }

  /** A removed ticker is not on today's list, so recording today left its dates alone. */
  lemma RemovedKeepTheirDates(
    fs: map<string, string>, ls: map<string, string>, prev: seq<string>, todayHoldings: seq<string>, today: string, t: string)
    requires t in RemovedTickers(prev, todayHoldings)
    ensures Get(LastSeenAfter(ls, todayHoldings, today), t) == Get(ls, t)
    ensures Get(FirstSeenAfter(fs, todayHoldings, today), t) == Get(fs, t)
  {
    assert t !in todayHoldings;
  }

  /**
   * `prevDateKey` does not look at `today`: when today is already the
   * latest recorded day (a second run on the same day), the previous list
   * is today's own earlier list, so re-recording the same list reports no
   * change.
   */
  lemma RerunOfLatestDay(h: map<string, seq<string>>, today: string, todayHoldings: seq<string>)
    requires today in h && h[today] == todayHoldings
    requires forall k :: k in h ==> LessEq(k, today)
    ensures LatestKey(h.Keys) == today
    ensures AddedTickers(HoldingsOn(h, LatestKey(h.Keys)), todayHoldings) == []
    ensures RemovedTickers(HoldingsOn(h, LatestKey(h.Keys)), todayHoldings) == []
  {
    GreatestUnique(h.Keys, today, LatestKey(h.Keys));
    DiffOfSameList(todayHoldings);
  }
}
