/**
 * The persistent tracking state (`models.State`) and the operations both Go
 * commands share: listing the date keys in order, finding the latest one,
 * recording a day's holdings, and diffing two ticker lists.
 */
module Holdings {
  import opened Strings

  /** `models.Tenured`: a ticker and how many days it has been held. */
  datatype Tenured = Tenured(ticker: string, days: int)

  /** Go's `m[k]` on a `map[string]string`: the zero value "" for a missing key. */
  function Get(m: map<string, string>, k: string): (v: string)
    ensures k !in m ==> v == ""
    ensures k in m ==> v == m[k]
  {
    if k in m then m[k] else ""
  }

  /** Go's `m[k]` on a `map[string][]string`: the nil (empty) list for a missing key. */
  function HoldingsOn(m: map<string, seq<string>>, k: string): (v: seq<string>)
    ensures k !in m ==> v == []
    ensures k in m ==> v == m[k]
  {
    if k in m then m[k] else []
  }

  /** A finite set of strings has a least element. */
  lemma {:induction false} HasLeast(s: set<string>)
    requires s != {}
    ensures exists m :: m in s && forall x :: x in s ==> LessEq(m, x)
    decreases s
  {
    var y :| y in s;
    if s == {y} {
      assert forall x :: x in s ==> x == y;
      assert y in s && forall x :: x in s ==> LessEq(y, x);
    } else {
      HasLeast(s - {y});
      var m :| m in s - {y} && forall x :: x in s - {y} ==> LessEq(m, x);
      LessTotal(m, y);
      var least := if Less(y, m) then y else m;
      forall x | x in s ensures LessEq(least, x) {
        if x != y {
          assert x in s - {y};
          if least == y && x != m {
            LessTransitive(y, m, x);
          }
        }
      }
      assert least in s;
    }
  }

  /** A finite set of strings has a greatest element. */
  lemma {:induction false} HasGreatest(s: set<string>)
    requires s != {}
    ensures exists m :: m in s && forall x :: x in s ==> LessEq(x, m)
    decreases s
  {
    var y :| y in s;
    if s == {y} {
      assert forall x :: x in s ==> x == y;
      assert y in s && forall x :: x in s ==> LessEq(x, y);
    } else {
      HasGreatest(s - {y});
      var m :| m in s - {y} && forall x :: x in s - {y} ==> LessEq(x, m);
      LessTotal(m, y);
      var greatest := if Less(m, y) then y else m;
      forall x | x in s ensures LessEq(x, greatest) {
        if x != y {
          assert x in s - {y};
          if greatest == y && x != m {
            LessTransitive(x, m, y);
          }
        }
      }
      assert greatest in s;
    }
  }

  /** The greatest key is unique: two candidates are equal. */
  lemma GreatestUnique(s: set<string>, a: string, b: string)
    requires a in s && b in s
    requires forall x :: x in s ==> LessEq(x, a)
    requires forall x :: x in s ==> LessEq(x, b)
    ensures a == b
  {
    if a != b {
      assert Less(a, b) && Less(b, a);
      LessAsymmetric(a, b);
    }
  }

  /** The strings of a set in ascending order: the reference for every sorted output. */
  ghost function Ordered(s: set<string>): (r: seq<string>)
    ensures StrictlySorted(r)
    ensures forall x :: x in r <==> x in s
    decreases s
  {
    if s == {} then
      []
    else
      HasLeast(s);
      var m :| m in s && forall x :: x in s ==> LessEq(m, x);
      var rest := Ordered(s - {m});
      assert forall j :: 0 <= j < |rest| ==> rest[j] in s - {m};
      [m] + rest
  }

  /** The latest date key, or "" when there are no keys. */
  ghost function LatestKey(keys: set<string>): (k: string)
    ensures keys == {} ==> k == ""
    ensures keys != {} ==> k in keys && forall x :: x in keys ==> LessEq(x, k)
  {
    if keys == {} then
      ""
    else
      HasGreatest(keys);
      var m :| m in keys && forall x :: x in keys ==> LessEq(x, m);
      m
  }

  /** Tickers of `today` not in `prev`, ascending: the `added` half of `diff`. */
  ghost function AddedTickers(prev: seq<string>, today: seq<string>): (r: seq<string>)
    ensures StrictlySorted(r)
    ensures forall t :: t in r <==> t in today && t !in prev
  {
    Ordered(set t | t in today && t !in prev)
  }

  /** Tickers of `prev` not in `today`, ascending: the `removed` half of `diff`. */
  ghost function RemovedTickers(prev: seq<string>, today: seq<string>): (r: seq<string>)
    ensures StrictlySorted(r)
    ensures forall t :: t in r <==> t in prev && t !in today
  {
    Ordered(set t | t in prev && t !in today)
  }

  /** Diffing a list against itself reports no change. */
  lemma DiffOfSameList(x: seq<string>)
    ensures AddedTickers(x, x) == [] && RemovedTickers(x, x) == []
  {
    assert (set t | t in x && t !in x) == {};
  }

  /** An ascending, duplicate-free list with given elements is the reference ordering. */
  lemma IsOrdered(r: seq<string>, s: set<string>)
    requires StrictlySorted(r) && forall x :: x in r <==> x in s
    ensures r == Ordered(s)
  {
    StrictlySortedUnique(r, Ordered(s));
  }

  /**
   * `diff(prev, today)`: the distinct tickers that appear only in `today`
   * (added) and only in `prev` (removed), each sorted ascending.
   */
  method Diff(prev: seq<string>, today: seq<string>) returns (added: seq<string>, removed: seq<string>)
    ensures StrictlySorted(added) && StrictlySorted(removed)
    ensures forall t :: t in added <==> t in today && t !in prev
    ensures forall t :: t in removed <==> t in prev && t !in today
    ensures added == AddedTickers(prev, today) && removed == RemovedTickers(prev, today)
  {
    var pm: set<string> := {};
    for i := 0 to |prev|
      invariant forall x :: x in pm <==> x in prev[..i]
    {
      assert prev[..i + 1] == prev[..i] + [prev[i]];
      pm := pm + {prev[i]};
    }
    assert prev[..|prev|] == prev;
    var tm: set<string> := {};
    for i := 0 to |today|
      invariant forall x :: x in tm <==> x in today[..i]
    {
      assert today[..i + 1] == today[..i] + [today[i]];
      tm := tm + {today[i]};
    }
    assert today[..|today|] == today;

    added, removed := [], [];
    var rest := tm;
    while rest != {}
      invariant rest <= tm
      invariant Distinct(added)
      invariant forall x :: x in added <==> x in tm - rest && x !in pm
      decreases rest
    {
      var t :| t in rest;
      if t !in pm {
        added := added + [t];
      }
      rest := rest - {t};
    }
    rest := pm;
    while rest != {}
      invariant rest <= pm
      invariant Distinct(removed)
      invariant forall x :: x in removed <==> x in pm - rest && x !in tm
      decreases rest
    {
      var p :| p in rest;
      if p !in tm {
        removed := removed + [p];
      }
      rest := rest - {p};
    }
    var unsortedAdded, unsortedRemoved := added, removed;
    added := SortStrings(added);
    removed := SortStrings(removed);
    assert forall x :: x in added <==> x in unsortedAdded by {
      forall x ensures x in added <==> x in unsortedAdded {
        assert x in added <==> x in multiset(added);
      }
    }
    assert forall x :: x in removed <==> x in unsortedRemoved by {
      forall x ensures x in removed <==> x in unsortedRemoved {
        assert x in removed <==> x in multiset(removed);
      }
    }
    IsOrdered(added, set t | t in today && t !in prev);
    IsOrdered(removed, set t | t in prev && t !in today);
  }

  /** The keys of a `map[string][]string`, collected and sorted (`sort.Strings`). */
  method SortedKeys(m: map<string, seq<string>>) returns (keys: seq<string>)
    ensures StrictlySorted(keys)
    ensures forall k :: k in keys <==> k in m
    ensures keys == Ordered(m.Keys)
  {
    keys := [];
    var rest := m.Keys;
    while rest != {}
      invariant rest <= m.Keys
      invariant Distinct(keys)
      invariant forall k :: k in keys <==> k in m && k !in rest
      decreases rest
    {
      var k :| k in rest;
      keys := keys + [k];
      rest := rest - {k};
    }
    var collected := keys;
    keys := SortStrings(keys);
    assert forall k :: k in keys <==> k in collected by {
      forall k ensures k in keys <==> k in collected {
        assert k in keys <==> k in multiset(keys);
      }
    }
    IsOrdered(keys, m.Keys);
  }

  /** `models.State` as the daily and weekly commands hold it in memory. */
  class State {
    var holdingsByDay: map<string, seq<string>>
    var firstSeen: map<string, string>
    var lastSeen: map<string, string>

    /** `Store.Load` when no state file exists yet: three empty, non-nil maps. */
    constructor Empty()
      ensures holdingsByDay == map[] && firstSeen == map[] && lastSeen == map[]
    {
      holdingsByDay, firstSeen, lastSeen := map[], map[], map[];
    }

    /**
     * Records one day: its ticker list replaces that day's entry, every
     * ticker gets a first-seen date if it has none, and every ticker's
     * last-seen date becomes `today`.
     */
    method RecordDay(today: string, tickers: seq<string>)
      modifies this
      ensures holdingsByDay == old(holdingsByDay)[today := tickers]
      ensures firstSeen == FirstSeenAfter(old(firstSeen), tickers, today)
      ensures lastSeen == LastSeenAfter(old(lastSeen), tickers, today)
    {
      holdingsByDay := holdingsByDay[today := tickers];
      for i := 0 to |tickers|
        invariant holdingsByDay == old(holdingsByDay)[today := tickers]
        invariant firstSeen == FirstSeenAfter(old(firstSeen), tickers[..i], today)
        invariant lastSeen == LastSeenAfter(old(lastSeen), tickers[..i], today)
      {
        var t := tickers[i];
        assert tickers[..i + 1] == tickers[..i] + [t];
        FirstSeenOneMore(old(firstSeen), tickers[..i], t, today);
        LastSeenOneMore(old(lastSeen), tickers[..i], t, today);
        if t !in firstSeen {
          firstSeen := firstSeen[t := today];
        }
        lastSeen := lastSeen[t := today];
      }
      assert tickers[..|tickers|] == tickers;
    }
  }

  /** First-seen dates after recording `tickers` on `today`: only new tickers get an entry. */
  ghost function FirstSeenAfter(fs: map<string, string>, tickers: seq<string>, today: string): map<string, string>
  {
    map t | t in fs.Keys + (set x | x in tickers) :: if t in fs then fs[t] else today
  }

  /** Last-seen dates after recording `tickers` on `today`: every listed ticker moves to `today`. */
  ghost function LastSeenAfter(ls: map<string, string>, tickers: seq<string>, today: string): map<string, string>
  {
    map t | t in ls.Keys + (set x | x in tickers) :: if t in tickers then today else ls[t]
  }

  lemma ListedOneMore(xs: seq<string>, t: string)
    ensures (set x | x in xs + [t]) == (set x | x in xs) + {t}
  {
    assert forall x :: x in xs + [t] <==> x in xs || x == t;
  }

  /** Recording one more ticker sets its first-seen date only if it has none. */
  lemma FirstSeenOneMore(fs: map<string, string>, xs: seq<string>, t: string, today: string)
    ensures var before := FirstSeenAfter(fs, xs, today);
      FirstSeenAfter(fs, xs + [t], today) == if t in before then before else before[t := today]
  {
    ListedOneMore(xs, t);
    var before := FirstSeenAfter(fs, xs, today);
    var after := FirstSeenAfter(fs, xs + [t], today);
    assert after.Keys == before.Keys + {t};
  }

  /** Recording one more ticker moves its last-seen date to `today`. */
  lemma LastSeenOneMore(ls: map<string, string>, xs: seq<string>, t: string, today: string)
    ensures LastSeenAfter(ls, xs + [t], today) == LastSeenAfter(ls, xs, today)[t := today]
  {
    ListedOneMore(xs, t);
    var before := LastSeenAfter(ls, xs, today);
    var after := LastSeenAfter(ls, xs + [t], today);
    assert after.Keys == before.Keys + {t};
    forall x | x in after.Keys ensures after[x] == before[t := today][x] {
      assert x in xs + [t] <==> x in xs || x == t;
    }
  }

  /** A first-seen date, once written, is never overwritten; new entries are exactly the new tickers. */
  lemma FirstSeenNeverOverwritten(fs: map<string, string>, tickers: seq<string>, today: string)
    ensures var after := FirstSeenAfter(fs, tickers, today);
      && (forall t :: t in fs ==> t in after && after[t] == fs[t])
      && (forall t :: t in after && t !in fs ==> t in tickers && after[t] == today)
      && (forall t :: t in tickers ==> t in after)
  {
  }

  /** Listed tickers are last seen `today`; every other ticker keeps its entry or its absence. */
  lemma LastSeenMovesToToday(ls: map<string, string>, tickers: seq<string>, today: string)
    ensures var after := LastSeenAfter(ls, tickers, today);
      && (forall t :: t in tickers ==> t in after && after[t] == today)
      && (forall t :: t !in tickers ==> (t in after <==> t in ls) && (t in ls ==> after[t] == ls[t]))
  {
  }

  /** Recording the same day twice changes nothing the second time. */
  lemma RecordDayIdempotent(fs: map<string, string>, ls: map<string, string>, tickers: seq<string>, today: string)
    ensures FirstSeenAfter(FirstSeenAfter(fs, tickers, today), tickers, today) == FirstSeenAfter(fs, tickers, today)
    ensures LastSeenAfter(LastSeenAfter(ls, tickers, today), tickers, today) == LastSeenAfter(ls, tickers, today)
  {
    FirstSeenTwice(fs, tickers, today);
    LastSeenTwice(ls, tickers, today);
  }

  lemma FirstSeenTwice(fs: map<string, string>, tickers: seq<string>, today: string)
    ensures FirstSeenAfter(FirstSeenAfter(fs, tickers, today), tickers, today) == FirstSeenAfter(fs, tickers, today)
  {
    var once := FirstSeenAfter(fs, tickers, today);
    assert FirstSeenAfter(once, tickers, today).Keys == once.Keys;
  }

  lemma LastSeenTwice(ls: map<string, string>, tickers: seq<string>, today: string)
    ensures LastSeenAfter(LastSeenAfter(ls, tickers, today), tickers, today) == LastSeenAfter(ls, tickers, today)
  {
    var once := LastSeenAfter(ls, tickers, today);
    assert LastSeenAfter(once, tickers, today).Keys == once.Keys;
  }

  /** The last of the sorted keys is the latest key. */
  lemma LastOfOrderedIsLatest(keys: set<string>)
    requires keys != {}
    ensures |Ordered(keys)| > 0
    ensures Ordered(keys)[|Ordered(keys)| - 1] == LatestKey(keys)
  {
    var r := Ordered(keys);
    var x :| x in keys;
    assert x in r;
    var k := r[|r| - 1];
    forall d | d in keys ensures LessEq(d, k) {
      var i :| 0 <= i < |r| && r[i] == d;
    }
    GreatestUnique(keys, k, LatestKey(keys));
  }

  /** `prevDateKey(st, today)`: the greatest date key, or "" for an empty history (`today` is not consulted). */
  method PrevDateKey(st: State, today: string) returns (k: string)
    ensures st.holdingsByDay == map[] ==> k == ""
    ensures st.holdingsByDay != map[] ==> k in st.holdingsByDay && forall d :: d in st.holdingsByDay ==> LessEq(d, k)
    ensures k == LatestKey(st.holdingsByDay.Keys)
  {
    var keys := SortedKeys(st.holdingsByDay);
    if |keys| == 0 {
      assert st.holdingsByDay.Keys == {} by {
        if d :| d in st.holdingsByDay { assert d in keys; }
      }
      return "";
    }
    k := keys[|keys| - 1];
    forall d | d in st.holdingsByDay ensures LessEq(d, k) {
      var i :| 0 <= i < |keys| && keys[i] == d;
    }
    GreatestUnique(st.holdingsByDay.Keys, k, LatestKey(st.holdingsByDay.Keys));
  }
}
