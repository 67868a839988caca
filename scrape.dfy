/**
 * The holdings summary of `tools/scrape-ulty.mjs`: from the rows of the
 * downloaded holdings CSV it picks the date and ticker columns, keeps the
 * single-token tickers (trimmed, each once, in order of first appearance)
 * and tracks the latest date seen. It also has the dividend-yield fallback.
 *
 * The CSV arrives already tokenised: a row is the sequence of its
 * (header, value) pairs in column order. JavaScript's `new Date(a) > new
 * Date(b)` becomes the parameter `later`.
 */
module Scrape {
  import opened Wrappers
  import opened Strings

  /** One parsed CSV row: (header, cell) pairs in column order. */
  type Row = seq<(string, string)>

  /** What the script writes to `rotations.json`, less the yield. */
  datatype Summary = Summary(latestDate: Option<string>, stockTickers: seq<string>)

  const EmptyCsv: string := "Empty CSV"
  const MissingColumns: string := "Missing Date/Ticker columns"
  const NotFound: string := "Not Found"

  /** The characters JavaScript's `\s` and `String.prototype.trim` treat as white space. */
  predicate IsJsSpace(c: char)
  {
    || c == ' ' || c == '\t' || c == '\n' || c == '\U{000B}' || c == '\U{000C}' || c == '\r'
    || c == '\U{00A0}' || c == '\U{1680}' || ('\U{2000}' <= c <= '\U{200A}')
    || c == '\U{2028}' || c == '\U{2029}' || c == '\U{202F}' || c == '\U{205F}' || c == '\U{3000}'
    || c == '\U{FEFF}'
  }

  /** `s` with its leading white space removed. */
  function TrimLeft(s: string): (r: string)
    ensures |r| <= |s| && r == s[|s| - |r|..]
    ensures forall i :: 0 <= i < |s| - |r| ==> IsJsSpace(s[i])
    ensures r == [] || !IsJsSpace(r[0])
  {
    if s != [] && IsJsSpace(s[0]) then TrimLeft(s[1..]) else s
  }

  /** `s` with its trailing white space removed. */
  function TrimRight(s: string): (r: string)
    ensures |r| <= |s| && r == s[..|r|]
    ensures forall i :: |r| <= i < |s| ==> IsJsSpace(s[i])
    ensures r == [] || !IsJsSpace(r[|r| - 1])
  {
    if s != [] && IsJsSpace(s[|s| - 1]) then TrimRight(s[..|s| - 1]) else s
  }

  /**
   * `s.trim()`: the slice of `s` left when the white space at both ends is
   * removed; it neither starts nor ends with white space.
   */
  function Trim(s: string): (r: string)
    ensures exists i :: TrimmedAt(s, r, i)
    ensures r == [] || (!IsJsSpace(r[0]) && !IsJsSpace(r[|r| - 1]))
  {
    var l := TrimLeft(s);
    var r := TrimRight(l);
    TrimmedAtParts(s, l, r);
    r
  }

  /** Trimming the front, then the back, leaves a slice with only white space around it. */
  lemma TrimmedAtParts(s: string, l: string, r: string)
    requires |l| <= |s| && l == s[|s| - |l|..] && forall k :: 0 <= k < |s| - |l| ==> IsJsSpace(s[k])
    requires |r| <= |l| && r == l[..|r|] && forall k :: |r| <= k < |l| ==> IsJsSpace(l[k])
    ensures TrimmedAt(s, r, |s| - |l|)
  {
    var i := |s| - |l|;
    assert r == s[i..i + |r|];
    forall k | i + |r| <= k < |s| ensures IsJsSpace(s[k]) {
      assert s[k] == l[k - i];
    }
  }

  /** `r` is the slice of `s` at `i`, with only white space before and after it. */
  ghost predicate TrimmedAt(s: string, r: string, i: int)
  {
    && 0 <= i <= |s| - |r| && r == s[i..i + |r|]
    && (forall k :: 0 <= k < i ==> IsJsSpace(s[k]))
    && (forall k :: i + |r| <= k < |s| ==> IsJsSpace(s[k]))
  }

  /** `/\s+\S+/.test(x)`: somewhere a white-space character is directly followed by a non-white-space one. */
  predicate HasSpaceThenToken(x: string)
  {
    exists i | 0 <= i < |x| - 1 :: SpaceThenToken(x, i)
  }

  predicate SpaceThenToken(x: string, i: int)
  {
    0 <= i < |x| - 1 && IsJsSpace(x[i]) && !IsJsSpace(x[i + 1])
  }

  predicate HasSpace(x: string)
  {
    exists i | 0 <= i < |x| :: IsJsSpace(x[i])
  }

  /** From a white-space character at `i`, a later non-white-space character is preceded by white space somewhere. */
  lemma {:induction false} SpaceReachesToken(x: string, i: int)
    requires 0 <= i < |x| && IsJsSpace(x[i]) && !IsJsSpace(x[|x| - 1])
    ensures HasSpaceThenToken(x)
    decreases |x| - i
  {
    if IsJsSpace(x[i + 1]) {
      SpaceReachesToken(x, i + 1);
    } else {
      assert SpaceThenToken(x, i);
    }
  }

  /**
   * On trimmed text the regular expression asks exactly whether the text
   * has any white space in it, that is whether it is more than one token.
   */
  lemma TrimmedSpaceThenToken(x: string)
    requires x == [] || !IsJsSpace(x[|x| - 1])
    ensures HasSpaceThenToken(x) <==> HasSpace(x)
  {
    if HasSpace(x) {
      var i :| 0 <= i < |x| && IsJsSpace(x[i]);
      SpaceReachesToken(x, i);
    }
    if HasSpaceThenToken(x) {
      var i :| 0 <= i < |x| - 1 && SpaceThenToken(x, i);
      assert IsJsSpace(x[i]);
    }
  }

  /**
   * `if (t && !/\s+\S+/.test(t.trim())) seen.add(t.trim())`: a present,
   * non-empty cell whose trimmed text is a single token (or empty, for a
   * cell of white space only) contributes its trimmed text.
   */
  function KeptTicker(cell: Option<string>): (r: Option<string>)
    ensures r.Some? <==> cell.Some? && cell.value != "" && !HasSpace(Trim(cell.value))
    ensures r.Some? ==> r.value == Trim(cell.value)
  {
    if cell.Some? && cell.value != "" then
      var t := Trim(cell.value);
      TrimmedSpaceThenToken(t);
      if !HasSpaceThenToken(t) then Some(t) else None
    else
      None
  }

  /**
   * `row[key]`: the row object is filled column by column, so under a
   * repeated header the last such column's cell is the one it holds.
   */
  function Lookup(row: Row, key: string): (r: Option<string>)
    ensures r.None? <==> forall i :: 0 <= i < |row| ==> row[i].0 != key
    ensures r.Some? ==> exists i :: 0 <= i < |row| && row[i] == (key, r.value)
  {
    if row == [] then None
    else if row[|row| - 1].0 == key then Some(row[|row| - 1].1)
    else
      assert forall i :: 0 <= i < |row| - 1 ==> row[i] == row[..|row| - 1][i];
      Lookup(row[..|row| - 1], key)
  }

  /** The cell found is the one of the last column with that header. */
  lemma {:induction false} LookupLastColumn(row: Row, key: string)
    ensures Lookup(row, key).Some? ==> exists i :: LastColumnAt(row, key, i) && row[i].1 == Lookup(row, key).value
  {
    if row != [] {
      if row[|row| - 1].0 == key {
        assert LastColumnAt(row, key, |row| - 1);
      } else {
        var init := row[..|row| - 1];
        LookupLastColumn(init, key);
        if Lookup(init, key).Some? {
          var i :| LastColumnAt(init, key, i) && init[i].1 == Lookup(init, key).value;
          assert LastColumnAt(row, key, i);
        }
      }
    }
  }

  /** Column `i` has header `key`, and no later column does. */
  ghost predicate LastColumnAt(row: Row, key: string, i: int)
  {
    0 <= i < |row| && row[i].0 == key && forall j :: i < j < |row| ==> row[j].0 != key
  }

  /** The headers of a row, in column order. */
  function Headers(row: Row): (hs: seq<string>)
    ensures |hs| == |row| && forall i :: 0 <= i < |row| ==> hs[i] == row[i].0
  {
    if row == [] then [] else [row[0].0] + Headers(row[1..])
  }

  /** `h` is `headers[i]`, the first header whose lower-case form contains `word`. */
  ghost predicate FirstMatchAt(headers: seq<string>, word: string, h: string, i: int)
  {
    && 0 <= i < |headers| && headers[i] == h && Contains(Lower(h), word)
    && forall j :: 0 <= j < i ==> !Contains(Lower(headers[j]), word)
  }

  lemma FirstMatchShift(headers: seq<string>, word: string, h: string)
    requires headers != [] && !Contains(Lower(headers[0]), word)
    ensures forall i :: FirstMatchAt(headers[1..], word, h, i) ==> FirstMatchAt(headers, word, h, i + 1)
  {
    forall i | FirstMatchAt(headers[1..], word, h, i) ensures FirstMatchAt(headers, word, h, i + 1) {
      forall j | 1 <= j < i + 1 ensures !Contains(Lower(headers[j]), word) {
        assert headers[j] == headers[1..][j - 1];
      }
    }
  }

  /** `headers.find(h => h.toLowerCase().includes(word))`. */
  function FindHeader(headers: seq<string>, word: string): (r: Option<string>)
    ensures r.None? <==> forall i :: 0 <= i < |headers| ==> !Contains(Lower(headers[i]), word)
    ensures r.Some? ==> exists i :: FirstMatchAt(headers, word, r.value, i)
  {
    if headers == [] then None
    else if Contains(Lower(headers[0]), word) then
      assert FirstMatchAt(headers, word, headers[0], 0);
      Some(headers[0])
    else
      var r := FindHeader(headers[1..], word);
      if r.Some? then
        FirstMatchShift(headers, word, r.value);
        r
      else
        assert forall i :: 1 <= i < |headers| ==> headers[i] == headers[1..][i - 1];
        r
  }

  /** The running latest date: a present, non-empty cell replaces it when there is none yet or it is `later`. */
  function NextLatest(latest: Option<string>, cell: Option<string>, later: (string, string) -> bool): Option<string>
  {
    if cell.Some? && cell.value != "" && (latest.None? || later(cell.value, latest.value)) then cell else latest
  }

  /** The latest date after the given rows. */
  function LatestDate(rows: seq<Row>, col: string, later: (string, string) -> bool): Option<string>
  {
    if rows == [] then None
    else NextLatest(LatestDate(rows[..|rows| - 1], col, later), Lookup(rows[|rows| - 1], col), later)
  }

  /** The ticker list after the given rows: each kept ticker appended when not already present. */
  function TickersOf(rows: seq<Row>, col: string): seq<string>
  {
    if rows == [] then []
    else AddTicker(TickersOf(rows[..|rows| - 1], col), KeptTicker(Lookup(rows[|rows| - 1], col)))
  }

  /** One row's effect on the ticker list: a kept ticker not yet listed is appended. */
  function AddTicker(seen: seq<string>, k: Option<string>): seq<string>
  {
    if k.Some? && k.value !in seen then seen + [k.value] else seen
  }

  /** `extractDataFromCSV` once the file has been read into rows. */
  function Summarize(rows: seq<Row>, later: (string, string) -> bool): (r: Result<Summary, string>)
    ensures r == Failure(EmptyCsv) <==> rows == []
    ensures r == Failure(MissingColumns) <==>
      rows != [] && (FindHeader(Headers(rows[0]), "date").None? || FindHeader(Headers(rows[0]), "ticker").None?)
  {
    if rows == [] then Failure(EmptyCsv)
    else
      var headers := Headers(rows[0]);
      match (FindHeader(headers, "date"), FindHeader(headers, "ticker"))
      case (Some(dateCol), Some(ticCol)) =>
        Success(Summary(LatestDate(rows, dateCol, later), TickersOf(rows, ticCol)))
      case _ => Failure(MissingColumns)
  }

  /** The aggregation loop of `extractDataFromCSV`. */
  method ExtractSummary(rows: seq<Row>, later: (string, string) -> bool) returns (r: Result<Summary, string>)
    ensures r == Summarize(rows, later)
  {
    if |rows| == 0 {
      return Failure(EmptyCsv);
    }
    var headers := Headers(rows[0]);
    var dateCol := FindHeader(headers, "date");
    var ticCol := FindHeader(headers, "ticker");
    if dateCol.None? || ticCol.None? {
      return Failure(MissingColumns);
    }
    var seen: seq<string> := [];
    var latestDate: Option<string> := None;
    for i := 0 to |rows|
      invariant seen == TickersOf(rows[..i], ticCol.value)
      invariant latestDate == LatestDate(rows[..i], dateCol.value, later)
    {
      var d := Lookup(rows[i], dateCol.value);
      var t := Lookup(rows[i], ticCol.value);
      SummaryStep(rows, i, dateCol.value, ticCol.value, later);
      if t.Some? && t.value != "" && !HasSpaceThenToken(Trim(t.value)) {
        var ticker := Trim(t.value);
        assert KeptTicker(t) == Some(ticker);
        if ticker !in seen {
          seen := seen + [ticker];
        }
      } else {
        assert KeptTicker(t) == None;
      }
      if d.Some? && d.value != "" && (latestDate.None? || later(d.value, latestDate.value)) {
        latestDate := d;
      }
    }
    assert rows[..|rows|] == rows;
    assert Summarize(rows, later) == Success(Summary(latestDate, seen));
    return Success(Summary(latestDate, seen));
  }

  /** One more row updates the ticker list and the latest date by that row's cells. */
  lemma SummaryStep(rows: seq<Row>, i: int, dateCol: string, ticCol: string, later: (string, string) -> bool)
    requires 0 <= i < |rows|
    ensures TickersOf(rows[..i + 1], ticCol) == AddTicker(TickersOf(rows[..i], ticCol), KeptTicker(Lookup(rows[i], ticCol)))
    ensures LatestDate(rows[..i + 1], dateCol, later) ==
      NextLatest(LatestDate(rows[..i], dateCol, later), Lookup(rows[i], dateCol), later)
  {
    assert rows[..i + 1][..i] == rows[..i] && rows[..i + 1][i] == rows[i];
  }

  /** The kept ticker cells of `rows`, in row order, duplicates included. */
  function KeptCells(rows: seq<Row>, col: string): (ks: seq<string>)
    ensures |ks| <= |rows|
  {
    if rows == [] then []
    else
      var k := KeptTicker(Lookup(rows[|rows| - 1], col));
      KeptCells(rows[..|rows| - 1], col) + (if k.Some? then [k.value] else [])
  }

  /** No ticker is listed twice, and exactly the kept tickers are listed. */
  lemma {:induction false} TickersOfMembers(rows: seq<Row>, col: string)
    ensures Distinct(TickersOf(rows, col))
    ensures forall t :: t in TickersOf(rows, col) <==> t in KeptCells(rows, col)
  {
    if rows != [] {
      var init := rows[..|rows| - 1];
      TickersOfMembers(init, col);
    }
  }

  /** A kept cell is a single token: its text has no white space. */
  lemma {:induction false} KeptCellsAreTokens(rows: seq<Row>, col: string)
    ensures forall t :: t in KeptCells(rows, col) ==> !HasSpace(t)
  {
    if rows != [] {
      KeptCellsAreTokens(rows[..|rows| - 1], col);
    }
  }

  /**
   * Order of first appearance: the list after some leading rows is a prefix
   * of the final list, so a later row never reorders what is listed.
   */
  lemma {:induction false} TickersOfPrefix(rows: seq<Row>, col: string, n: nat)
    requires n <= |rows|
    ensures TickersOf(rows[..n], col) <= TickersOf(rows, col)
  {
    if n == |rows| {
      assert rows[..n] == rows;
    } else {
      var init := rows[..|rows| - 1];
      TickersOfPrefix(init, col, n);
      assert init[..n] == rows[..n];
      AddTickerExtends(TickersOf(init, col), KeptTicker(Lookup(rows[|rows| - 1], col)));
    }
  }

  /** A row only ever appends to the ticker list. */
  lemma AddTickerExtends(seen: seq<string>, k: Option<string>)
    ensures seen <= AddTicker(seen, k)
  {
  }

  /** No date at all (every date cell absent or empty) leaves `latestDate` null, and only then. */
  lemma {:induction false} LatestDateNone(rows: seq<Row>, col: string, later: (string, string) -> bool)
    ensures LatestDate(rows, col, later).None? <==>
      forall i :: 0 <= i < |rows| ==> Lookup(rows[i], col) in {None, Some("")}
  {
    if rows != [] {
      var init := rows[..|rows| - 1];
      LatestDateNone(init, col, later);
      assert forall i :: 0 <= i < |init| ==> init[i] == rows[i];
    }
  }

  /** The latest date is the non-empty date cell of one of the rows. */
  lemma {:induction false} LatestDateFromRows(rows: seq<Row>, col: string, later: (string, string) -> bool)
    ensures LatestDate(rows, col, later).Some? ==>
      exists i :: 0 <= i < |rows| && LatestDate(rows, col, later) == Lookup(rows[i], col)
               && LatestDate(rows, col, later).value != ""
  {
    if rows != [] {
      var init := rows[..|rows| - 1];
      LatestDateFromRows(init, col, later);
      if LatestDate(rows, col, later) == LatestDate(init, col, later) && LatestDate(init, col, later).Some? {
        var i :| 0 <= i < |init| && LatestDate(init, col, later) == Lookup(init[i], col)
                 && LatestDate(init, col, later).value != "";
        assert init[i] == rows[i];
      }
    }
  }

  /**
   * When `later` is a strict order (transitive and irreflexive, as `>` on
   * dates, including invalid ones), no date cell is later than the result:
   * it is a running maximum.
   */
  lemma {:induction false} LatestDateIsMaximal(rows: seq<Row>, col: string, later: (string, string) -> bool)
    requires forall a, b, c :: later(a, b) && later(b, c) ==> later(a, c)
    requires forall a :: !later(a, a)
    ensures forall i :: 0 <= i < |rows| && Lookup(rows[i], col).Some? && Lookup(rows[i], col).value != "" ==>
      LatestDate(rows, col, later).Some? && !later(Lookup(rows[i], col).value, LatestDate(rows, col, later).value)
  {
    if rows != [] {
      var init := rows[..|rows| - 1];
      LatestDateIsMaximal(init, col, later);
      forall i | 0 <= i < |rows| && Lookup(rows[i], col).Some? && Lookup(rows[i], col).value != ""
        ensures LatestDate(rows, col, later).Some? && !later(Lookup(rows[i], col).value, LatestDate(rows, col, later).value)
      {
        if i < |init| {
          assert init[i] == rows[i];
        }
      }
    }
  }

  /** Row `j` has a non-empty date cell. */
  ghost predicate Dated(rows: seq<Row>, col: string, j: int)
  {
    0 <= j < |rows| && Lookup(rows[j], col).Some? && Lookup(rows[j], col).value != ""
  }

  /**
   * Row `i` holds the latest date, every earlier dated row is strictly
   * earlier than it, and no later row is later: the first row of the
   * latest dates.
   */
  ghost predicate FirstLatestAt(rows: seq<Row>, col: string, later: (string, string) -> bool, i: int)
  {
    && Dated(rows, col, i)
    && LatestDate(rows, col, later) == Lookup(rows[i], col)
    && (forall j :: 0 <= j < i && Dated(rows, col, j) ==> later(Lookup(rows[i], col).value, Lookup(rows[j], col).value))
    && (forall j :: i < j < |rows| && Dated(rows, col, j) ==> !later(Lookup(rows[j], col).value, Lookup(rows[i], col).value))
  }

  /** `later` is a strict weak order: irreflexive and transitive, with "not later" transitive too. */
  ghost predicate StrictWeakOrder(later: (string, string) -> bool)
  {
    && (forall a :: !later(a, a))
    && (forall a, b, c :: later(a, b) && later(b, c) ==> later(a, c))
    && (forall a, b, c :: !later(a, b) && !later(b, c) ==> !later(a, c))
  }

  /**
   * Ties keep the earlier row: a date replaces the running one only when it
   * is strictly later, so the result is the date of the first row among
   * those with a latest date.
   */
  lemma {:induction false} LatestDateFirstOfLatest(rows: seq<Row>, col: string, later: (string, string) -> bool)
    requires StrictWeakOrder(later)
    ensures LatestDate(rows, col, later).Some? ==> exists i :: FirstLatestAt(rows, col, later, i)
  {
    if rows != [] && LatestDate(rows, col, later).Some? {
      var init := rows[..|rows| - 1];
      if LatestDate(rows, col, later) != LatestDate(init, col, later) {
        LatestAtLastRow(rows, col, later);
      } else {
        LatestDateFirstOfLatest(init, col, later);
        var i :| FirstLatestAt(init, col, later, i);
        LatestKeptFromInit(rows, col, later, i);
      }
    }
  }

  /** When the last row changes the running date, it is strictly later than every earlier dated row. */
  lemma LatestAtLastRow(rows: seq<Row>, col: string, later: (string, string) -> bool)
    requires StrictWeakOrder(later)
    requires rows != [] && LatestDate(rows, col, later) != LatestDate(rows[..|rows| - 1], col, later)
    ensures FirstLatestAt(rows, col, later, |rows| - 1)
  {
    var n := |rows|;
    var init := rows[..n - 1];
    var prior := LatestDate(init, col, later);
    var cell := Lookup(rows[n - 1], col);
    assert cell.Some? && cell.value != "" && (prior.None? || later(cell.value, prior.value));
    LatestDateNone(init, col, later);
    LatestDateIsMaximal(init, col, later);
    forall j | 0 <= j < n - 1 && Dated(rows, col, j)
      ensures later(cell.value, Lookup(rows[j], col).value)
    {
      assert init[j] == rows[j];
      assert Dated(init, col, j);
      assert !later(Lookup(rows[j], col).value, prior.value);
    }
  }

  /** When the last row leaves the running date alone, the first latest row of the prefix stays first latest. */
  lemma LatestKeptFromInit(rows: seq<Row>, col: string, later: (string, string) -> bool, i: int)
    requires StrictWeakOrder(later)
    requires rows != [] && LatestDate(rows, col, later) == LatestDate(rows[..|rows| - 1], col, later)
    requires FirstLatestAt(rows[..|rows| - 1], col, later, i)
    ensures FirstLatestAt(rows, col, later, i)
  {
    var init := rows[..|rows| - 1];
    var prior := LatestDate(init, col, later);
    var cell := Lookup(rows[|rows| - 1], col);
    assert init[i] == rows[i];
    assert prior == Lookup(rows[i], col) && prior.Some?;
    assert NextLatest(prior, cell, later) == prior;
    assert cell.Some? && cell.value != "" ==> !later(cell.value, prior.value);
    forall j | 0 <= j < i && Dated(rows, col, j)
      ensures later(Lookup(rows[i], col).value, Lookup(rows[j], col).value)
    {
      assert init[j] == rows[j];
      assert Dated(init, col, j);
    }
    forall j | i < j < |rows| && Dated(rows, col, j)
      ensures !later(Lookup(rows[j], col).value, Lookup(rows[i], col).value)
    {
      if j < |rows| - 1 {
        assert init[j] == rows[j];
        assert Dated(init, col, j);
      }
    }
  }

  /**
   * Rows (2024-01-01, AAPL), (2024-02-01, MSFT BONUS), (2024-01-15, aapl),
   * with ISO dates compared as strings: the multi-word cell is dropped, the
   * tickers are case-sensitive, and the latest date comes from the dropped row.
   */
  lemma ExampleRows()
    ensures Summarize(ExampleCsv(), (a, b) => Less(b, a)) == Success(Summary(Some("2024-02-01"), ["AAPL", "aapl"]))
  {
    ExampleColumns();
    ExampleTickers();
    ExampleLatest();
  }

  function ExampleRow1(): Row { [("Date", "2024-01-01"), ("Ticker", "AAPL")] }
  function ExampleRow2(): Row { [("Date", "2024-02-01"), ("Ticker", "MSFT BONUS")] }
  function ExampleRow3(): Row { [("Date", "2024-01-15"), ("Ticker", "aapl")] }

  function ExampleCsv(): seq<Row>
  {
    [ExampleRow1(), ExampleRow2(), ExampleRow3()]
  }

  lemma ExampleColumns()
    ensures Headers(ExampleCsv()[0]) == ["Date", "Ticker"]
    ensures FindHeader(["Date", "Ticker"], "date") == Some("Date")
    ensures FindHeader(["Date", "Ticker"], "ticker") == Some("Ticker")
  {
    ExampleHeaders();
    ExampleDateColumn();
    ExampleTickerColumn();
  }

  lemma ExampleHeaders()
    ensures Headers(ExampleCsv()[0]) == ["Date", "Ticker"]
  {
  }

  lemma ExampleDateColumn()
    ensures FindHeader(["Date", "Ticker"], "date") == Some("Date")
  {
    LowerOfCapitalised("Date", "date");
    FirstHeaderMatches("Date", "Ticker", "date");
  }

  lemma ExampleTickerColumn()
    ensures FindHeader(["Date", "Ticker"], "ticker") == Some("Ticker")
  {
    LowerOfCapitalised("Date", "date");
    LowerOfCapitalised("Ticker", "ticker");
    SecondHeaderMatches("Date", "Ticker", "ticker");
  }

  /** A capitalised word lower-cases to the word with its first letter lowered. */
  lemma LowerOfCapitalised(s: string, w: string)
    requires |s| == |w| && |s| >= 1
    requires 'A' <= s[0] <= 'Z' && w[0] == (s[0] - 'A' + 'a') as char
    requires forall i :: 1 <= i < |s| ==> 'a' <= s[i] <= 'z' && w[i] == s[i]
    ensures Lower(s) == w
  {
  }

  lemma FirstHeaderMatches(h1: string, h2: string, word: string)
    requires Lower(h1) == word
    ensures FindHeader([h1, h2], word) == Some(h1)
  {
    assert OccursAt(Lower(h1), word, 0);
  }

  /** A first header whose lower case is too short to contain the word, and a second one that lower-cases to it. */
  lemma SecondHeaderMatches(h1: string, h2: string, word: string)
    requires |Lower(h1)| < |word| && Lower(h2) == word
    ensures FindHeader([h1, h2], word) == Some(h2)
  {
    assert !Contains(Lower(h1), word);
    assert OccursAt(Lower(h2), word, 0);
    assert [h1, h2][1..] == [h2];
  }

  /** Text that neither starts nor ends with white space is its own trim. */
  lemma TrimOfTrimmed(s: string)
    requires s == [] || (!IsJsSpace(s[0]) && !IsJsSpace(s[|s| - 1]))
    ensures Trim(s) == s
  {
    assert TrimLeft(s) == s;
    assert TrimRight(s) == s;
  }

  /** A present single-token cell is kept as it is. */
  lemma KeptToken(t: string)
    requires t != [] && !HasSpace(t)
    ensures KeptTicker(Some(t)) == Some(t)
  {
    TrimOfTrimmed(t);
  }

  lemma TickersOfSnoc(rows: seq<Row>, row: Row, col: string)
    ensures TickersOf(rows + [row], col) == AddTicker(TickersOf(rows, col), KeptTicker(Lookup(row, col)))
  {
    assert (rows + [row])[..|rows|] == rows;
  }

  lemma ExampleCells()
    ensures KeptTicker(Lookup(ExampleRow1(), "Ticker")) == Some("AAPL")
    ensures KeptTicker(Lookup(ExampleRow2(), "Ticker")) == None
    ensures KeptTicker(Lookup(ExampleRow3(), "Ticker")) == Some("aapl")
  {
    ExampleCell1();
    ExampleCell2();
    ExampleCell3();
  }

  lemma ExampleCell1()
    ensures KeptTicker(Lookup(ExampleRow1(), "Ticker")) == Some("AAPL")
  {
    assert Lookup(ExampleRow1(), "Ticker") == Some("AAPL");
    KeptToken("AAPL");
  }

  lemma ExampleCell2()
    ensures KeptTicker(Lookup(ExampleRow2(), "Ticker")) == None
  {
    assert Lookup(ExampleRow2(), "Ticker") == Some("MSFT BONUS");
    DroppedCell("MSFT BONUS", 4);
  }

  lemma ExampleCell3()
    ensures KeptTicker(Lookup(ExampleRow3(), "Ticker")) == Some("aapl")
  {
    assert Lookup(ExampleRow3(), "Ticker") == Some("aapl");
    KeptToken("aapl");
  }

  /** A cell with white space inside its text, and none at its ends, is dropped. */
  lemma DroppedCell(t: string, i: int)
    requires 0 <= i < |t| && IsJsSpace(t[i]) && !IsJsSpace(t[0]) && !IsJsSpace(t[|t| - 1])
    ensures KeptTicker(Some(t)) == None
  {
    TrimOfTrimmed(t);
  }

  /** Three rows: a kept ticker, a dropped cell, and a second ticker differing only in case. */
  lemma TickersOfThree(r1: Row, r2: Row, r3: Row, col: string, a: string, b: string)
    requires KeptTicker(Lookup(r1, col)) == Some(a)
    requires KeptTicker(Lookup(r2, col)) == None
    requires KeptTicker(Lookup(r3, col)) == Some(b) && a != b
    ensures TickersOf([r1, r2, r3], col) == [a, b]
  {
    TickersOfRows3(r1, r2, r3, col);
    AddThree(a, b);
  }

  /** Three rows unfolded: each one's kept ticker is offered to the list in file order. */
  lemma TickersOfRows3(r1: Row, r2: Row, r3: Row, col: string)
    ensures TickersOf([r1, r2, r3], col)
         == AddTicker(AddTicker(AddTicker([], KeptTicker(Lookup(r1, col))), KeptTicker(Lookup(r2, col))), KeptTicker(Lookup(r3, col)))
  {
    var rows0: seq<Row> := [];
    assert TickersOf(rows0, col) == [];
    TickersOfSnoc(rows0, r1, col);
    TickersOfSnoc(rows0 + [r1], r2, col);
    TickersOfSnoc(rows0 + [r1] + [r2], r3, col);
    assert rows0 + [r1] + [r2] + [r3] == [r1, r2, r3];
  }

  lemma AddThree(a: string, b: string)
    requires a != b
    ensures AddTicker(AddTicker(AddTicker([], Some(a)), None), Some(b)) == [a, b]
  {
    assert AddTicker([], Some(a)) == [a];
    assert b !in [a];
  }

  lemma ExampleTickers()
    ensures TickersOf(ExampleCsv(), "Ticker") == ["AAPL", "aapl"]
  {
    ExampleCells();
    TickersOfThree(ExampleRow1(), ExampleRow2(), ExampleRow3(), "Ticker", "AAPL", "aapl");
  }

  lemma ExampleLatest()
    ensures LatestDate(ExampleCsv(), "Date", (a, b) => Less(b, a)) == Some("2024-02-01")
  {
    var later := (a, b) => Less(b, a);
    ExampleDates();
    ExampleDateOrder("2024-01-01", "2024-02-01", "2024-01-15");
    LatestOfThree(ExampleRow1(), ExampleRow2(), ExampleRow3(), "Date", later, "2024-01-01", "2024-02-01", "2024-01-15");
  }

  lemma ExampleDates()
    ensures Lookup(ExampleRow1(), "Date") == Some("2024-01-01")
    ensures Lookup(ExampleRow2(), "Date") == Some("2024-02-01")
    ensures Lookup(ExampleRow3(), "Date") == Some("2024-01-15")
  {
  }

  lemma ExampleDateOrder(d1: string, d2: string, d3: string)
    requires d1 == "2024-01-01" && d2 == "2024-02-01" && d3 == "2024-01-15"
    ensures Less(d1, d2) && !Less(d2, d3)
  {
    LessAt(d1, d2, 6);
    LessAt(d3, d2, 6);
    LessAsymmetric(d3, d2);
  }

  /** Three dated rows where the second date is later than the first and the third is not later than the second. */
  lemma LatestOfThree(r1: Row, r2: Row, r3: Row, col: string, later: (string, string) -> bool, d1: string, d2: string, d3: string)
    requires Lookup(r1, col) == Some(d1) && Lookup(r2, col) == Some(d2) && Lookup(r3, col) == Some(d3)
    requires d1 != "" && d2 != "" && d3 != ""
    requires later(d2, d1) && !later(d3, d2)
    ensures LatestDate([r1, r2, r3], col, later) == Some(d2)
  {
    var rows0: seq<Row> := [];
    var rows1, rows2, rows3 := rows0 + [r1], rows0 + [r1] + [r2], rows0 + [r1] + [r2] + [r3];
    assert rows1[..0] == rows0 && rows1[0] == r1;
    assert rows2[..1] == rows1 && rows2[1] == r2;
    assert rows3[..2] == rows2 && rows3[2] == r3;
    assert LatestDate(rows1, col, later) == Some(d1);
    assert LatestDate(rows2, col, later) == Some(d2);
    assert LatestDate(rows3, col, later) == NextLatest(Some(d2), Some(d3), later) == Some(d2);
    assert rows3 == [r1, r2, r3];
  }

  /** `dividendYield || 'Not Found'` where the yield is the trimmed cell text, or null without a cell. */
  function YieldOf(cell: Option<string>): (y: string)
    ensures y == NotFound <==> cell.None? || Trim(cell.value) == "" || Trim(cell.value) == NotFound
    ensures y != NotFound ==> y == Trim(cell.value)
  {
    if cell.Some? && Trim(cell.value) != "" then Trim(cell.value) else NotFound
  }
}
