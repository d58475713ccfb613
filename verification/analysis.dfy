/**
 * Trend analysis over the price store: the windowed history query and the
 * High / Low / Stable classification of a current price against the mean of
 * the last seven days (falling back to the mean of the last thirty).
 */
module Analysis {
  import opened Options
  import opened Dicts
  import opened Database

  const SecondsPerDay: int := 86400
  /** The window the analyser reads from the store. */
  const HistoryDays: int := 30
  /** Rows whose whole-day age is at most this many days enter the recent average. */
  const RecentDays: int := 7

  /** One row of a history query: `(timestamp, price)`. */
  datatype Sample = Sample(timestamp: int, price: real)

  datatype Trend = InsufficientData | High | Low | Stable

  // ---------------------------------------------------------------------
  // The history query

  /** The rows of `item` stamped at or after `start`, in table order. */
  function Matching(rows: seq<Row>, item: string, start: int): seq<Sample>
  {
    if rows == [] then []
    else
      var r := rows[|rows| - 1];
      Matching(rows[..|rows| - 1], item, start) +
        (if r.item == item && r.timestamp >= start then [Sample(r.timestamp, r.price)] else [])
  }

  predicate Ascending(s: seq<Sample>)
  {
    forall i, j :: 0 <= i < j < |s| ==> s[i].timestamp <= s[j].timestamp
  }

  function Insert(x: Sample, s: seq<Sample>): seq<Sample>
  {
    if s == [] then [x]
    else if x.timestamp <= s[0].timestamp then [x] + s
    else [s[0]] + Insert(x, s[1..])
  }

  /** `ORDER BY timestamp ASC`. */
  function SortByTime(s: seq<Sample>): seq<Sample>
  {
    if s == [] then [] else Insert(s[0], SortByTime(s[1..]))
  }

  /**
   * `get_price_history`: the samples of `item` with
   * `timestamp >= now - days`, in ascending timestamp order.
   */
  function History(rows: seq<Row>, item: string, days: int, now: int): seq<Sample>
  {
    SortByTime(Matching(rows, item, now - days * SecondsPerDay))
  }

  // ---------------------------------------------------------------------
  // Averages and classification

  function Prices(h: seq<Sample>): seq<real>
  {
    seq(|h|, i requires 0 <= i < |h| => h[i].price)
  }

  function Sum(s: seq<real>): real
  {
    if s == [] then 0.0 else Sum(s[..|s| - 1]) + s[|s| - 1]
  }

  function Mean(s: seq<real>): real
    requires s != []
  {
    Sum(s) / (|s| as real)
  }

  /** `(now - ts).days`: whole days elapsed, rounded toward minus infinity. */
  function AgeInDays(ts: int, now: int): int
  {
    (now - ts) / SecondsPerDay
  }

  /** The prices of the samples whose whole-day age is at most seven, in order. */
  function RecentPrices(h: seq<Sample>, now: int): seq<real>
  {
    if h == [] then []
    else
      var s := h[|h| - 1];
      RecentPrices(h[..|h| - 1], now) + (if AgeInDays(s.timestamp, now) <= RecentDays then [s.price] else [])
  }

  /** The seven-day mean, or the whole window's mean when no sample is that recent. */
  function ReferenceAverage(h: seq<Sample>, now: int): real
    requires h != []
  {
    var recent := RecentPrices(h, now);
    if recent == [] then Mean(Prices(h)) else Mean(recent)
  }

  /** The strict ten-percent band around `average`. */
  function Classify(current: real, average: real): Trend
  {
    if current > average * 1.1 then High
    else if current < average * 0.9 then Low
    else Stable
  }

  /** The analyser's verdict on `current` given the window `h` read at `now`. */
  function TrendOf(h: seq<Sample>, current: real, now: int): Trend
  {
    if |h| < 2 then InsufficientData else Classify(current, ReferenceAverage(h, now))
  }

  /**
   * `analyze_item_trend`: reads the last thirty days of `itemName` from the
   * store, gives up below two samples, and otherwise classifies the current
   * price against the recent average built by a loop over the history.
   */
  method AnalyzeItemTrend(store: Store, itemName: string, currentPrice: real, now: int) returns (trend: Trend)
    requires store.tableExists
    ensures trend == TrendOf(History(store.rows, itemName, HistoryDays, now), currentPrice, now)
    ensures |History(store.rows, itemName, HistoryDays, now)| < 2 <==> trend == InsufficientData
  {
    var history := History(store.rows, itemName, HistoryDays, now);
    if |history| < 2 {
      return InsufficientData;
    }
    var prices := Prices(history);
    var average30 := Sum(prices) / (|prices| as real);
    var recent: seq<real> := [];
    for i := 0 to |history|
      invariant recent == RecentPrices(history[..i], now)
    {
      var (ts, price) := (history[i].timestamp, history[i].price);
      if (now - ts) / SecondsPerDay <= RecentDays {
        recent := recent + [price];
      }
      assert history[..i + 1][..i] == history[..i];
    }
    assert history[..|history|] == history;
    var average7 := if recent == [] then average30 else Sum(recent) / (|recent| as real);
    trend := Classify(currentPrice, average7);
  }

  // ---------------------------------------------------------------------
  // The history query returns exactly the matching rows, ascending

  lemma {:induction false} InsertMultiset(x: Sample, s: seq<Sample>)
    ensures multiset(Insert(x, s)) == multiset(s) + multiset{x}
  {
    if s != [] && x.timestamp > s[0].timestamp {
      InsertMultiset(x, s[1..]);
      assert s == [s[0]] + s[1..];
    }
  }

  lemma {:induction false} InsertSpec(x: Sample, s: seq<Sample>)
    requires Ascending(s)
    ensures Ascending(Insert(x, s))
    ensures multiset(Insert(x, s)) == multiset(s) + multiset{x}
  {
    InsertMultiset(x, s);
    if s != [] && x.timestamp > s[0].timestamp {
      var t := Insert(x, s[1..]);
      InsertSpec(x, s[1..]);
      forall j | 0 <= j < |t|
        ensures s[0].timestamp <= t[j].timestamp
      {
        assert t[j] in multiset(t);
        assert t[j] == x || t[j] in multiset(s[1..]);
      }
      assert Insert(x, s) == [s[0]] + t;
    }
  }

  lemma {:induction false} SortSpec(s: seq<Sample>)
    ensures Ascending(SortByTime(s))
    ensures multiset(SortByTime(s)) == multiset(s)
  {
    if s != [] {
      SortSpec(s[1..]);
      InsertSpec(s[0], SortByTime(s[1..]));
      assert s == [s[0]] + s[1..];
    }
  }

  /** Rows already in ascending order come back unchanged. */
  lemma {:induction false} SortAscendingFixed(s: seq<Sample>)
    requires Ascending(s)
    ensures SortByTime(s) == s
  {
    if s != [] {
      SortAscendingFixed(s[1..]);
    }
  }

  lemma {:induction false} MatchingSpec(rows: seq<Row>, item: string, start: int, x: Sample)
    ensures x in Matching(rows, item, start) <==>
      exists k :: 0 <= k < |rows| && rows[k].item == item && rows[k].timestamp >= start &&
        x == Sample(rows[k].timestamp, rows[k].price)
  {
    if rows != [] {
      var n := |rows| - 1;
      MatchingSpec(rows[..n], item, start, x);
      if exists k :: 0 <= k < |rows| && rows[k].item == item && rows[k].timestamp >= start &&
                     x == Sample(rows[k].timestamp, rows[k].price) {
        var k :| 0 <= k < |rows| && rows[k].item == item && rows[k].timestamp >= start &&
                 x == Sample(rows[k].timestamp, rows[k].price);
        if k < n {
          assert rows[..n][k] == rows[k];
        }
      }
    }
  }

  lemma {:induction false} MatchingAppend(a: seq<Row>, b: seq<Row>, item: string, start: int)
    ensures Matching(a + b, item, start) == Matching(a, item, start) + Matching(b, item, start)
  {
    if b != [] {
      var n := |b| - 1;
      MatchingAppend(a, b[..n], item, start);
      assert (a + b)[..|a + b| - 1] == a + b[..n];
      assert (a + b)[|a + b| - 1] == b[n];
    } else {
      assert a + b == a;
    }
  }

  /**
   * The history query returns, in ascending timestamp order, exactly the
   * rows of that item stamped at or after `now - days`, each row once.
   */
  lemma HistorySpec(rows: seq<Row>, item: string, days: int, now: int, x: Sample)
    ensures Ascending(History(rows, item, days, now))
    ensures multiset(History(rows, item, days, now)) == multiset(Matching(rows, item, now - days * SecondsPerDay))
    ensures x in History(rows, item, days, now) <==>
      exists k :: 0 <= k < |rows| && rows[k].item == item && rows[k].timestamp >= now - days * SecondsPerDay &&
        x == Sample(rows[k].timestamp, rows[k].price)
  {
    var m := Matching(rows, item, now - days * SecondsPerDay);
    SortSpec(m);
    MatchingSpec(rows, item, now - days * SecondsPerDay, x);
    assert x in SortByTime(m) <==> x in multiset(SortByTime(m));
  }

  /**
   * Round trip: after a batch write at `now`, each quoted (item, source,
   * price) is in that item's history for any non-negative window.
   */
  lemma SavedQuoteInHistory(before: seq<Row>, batch: PriceBatch, now: int, item: string, source: string, days: int)
    requires days >= 0
    requires HasKey(batch, item) && HasKey(Get(batch, item).value, source)
    ensures Sample(now, Get(Get(batch, item).value, source).value) in History(before + Flatten(batch, now), item, days, now)
  {
    var inner := Get(batch, item).value;
    var price := Get(inner, source).value;
    GetEntry(batch, item);
    GetEntry(inner, source);
    var i :| 0 <= i < |batch| && batch[i] == (item, inner);
    var j :| 0 <= j < |inner| && inner[j] == (source, price);
    var r := Row(item, source, price, now);
    FlattenRows(batch, now, r);
    var rows := before + Flatten(batch, now);
    var k :| 0 <= k < |Flatten(batch, now)| && Flatten(batch, now)[k] == r;
    assert rows[|before| + k] == r;
    HistorySpec(rows, item, days, now, Sample(now, price));
  }

  /** An item with no rows at all has an empty history. */
  lemma NoRowsNoMatches(rows: seq<Row>, item: string, start: int)
    requires forall k :: 0 <= k < |rows| ==> rows[k].item != item
    ensures Matching(rows, item, start) == []
  {
    if Matching(rows, item, start) != [] {
      MatchingSpec(rows, item, start, Matching(rows, item, start)[0]);
    }
  }

  lemma {:induction false} MatchingSourceRows(item: string, sources: Dict<string, real>, ts: int, key: string, start: int)
    requires ts >= start
    ensures Matching(SourceRows(item, sources, ts), key, start) ==
      if item == key then seq(|sources|, j requires 0 <= j < |sources| => Sample(ts, sources[j].1)) else []
  {
    if sources != [] {
      var n := |sources| - 1;
      MatchingSourceRows(item, sources[..n], ts, key, start);
      assert SourceRows(item, sources, ts)[..n] == SourceRows(item, sources[..n], ts);
    }
  }

  /**
   * The samples one batch write adds to an item's history: one per source
   * of that item's inner dict, all stamped with the batch's instant.
   */
  lemma {:induction false} MatchingFlatten(batch: PriceBatch, ts: int, key: string, start: int)
    requires Valid(batch) && ts >= start
    ensures Matching(Flatten(batch, ts), key, start) ==
      match Get(batch, key)
      case Some(inner) => seq(|inner|, j requires 0 <= j < |inner| => Sample(ts, inner[j].1))
      case None => []
  {
    if batch != [] {
      var n := |batch| - 1;
      var rest := batch[..n];
      ValidPrefix(batch);
      MatchingFlatten(rest, ts, key, start);
      MatchingAppend(Flatten(rest, ts), SourceRows(batch[n].0, batch[n].1, ts), key, start);
      MatchingSourceRows(batch[n].0, batch[n].1, ts, key, start);
      GetAppend(rest, batch[n], key);
      assert batch == rest + [batch[n]];
      if batch[n].0 == key {
        HasKeyIffKey(rest, key);
      }
    }
  }

  // ---------------------------------------------------------------------
  // Averages

  lemma {:induction false} SumBounds(s: seq<real>, lo: real, hi: real)
    requires forall i :: 0 <= i < |s| ==> lo <= s[i] <= hi
    ensures (|s| as real) * lo <= Sum(s) <= (|s| as real) * hi
  {
    if s != [] {
      SumBounds(s[..|s| - 1], lo, hi);
    }
  }

  /** A mean lies between any lower and upper bound of the values averaged. */
  lemma MeanBounds(s: seq<real>, lo: real, hi: real)
    requires s != []
    requires forall i :: 0 <= i < |s| ==> lo <= s[i] <= hi
    ensures lo <= Mean(s) <= hi
  {
    SumBounds(s, lo, hi);
    var n := |s| as real;
    assert n * lo <= Sum(s) <= n * hi;
    assert Mean(s) == Sum(s) / n;
  }

  /** A whole-day age of at most seven means strictly less than eight days have passed. */
  lemma AgeCutoff(ts: int, now: int)
    ensures AgeInDays(ts, now) <= RecentDays <==> now - ts < 8 * SecondsPerDay
  {
    var d := now - ts;
    var q := d / SecondsPerDay;
    assert d == q * SecondsPerDay + d % SecondsPerDay;
    if q <= RecentDays {
      assert d < (q + 1) * SecondsPerDay;
    } else {
      assert q >= 8;
      assert d >= 8 * SecondsPerDay;
    }
  }

  /** The samples younger than eight full days, in order. */
  function YoungerThanEightDays(h: seq<Sample>, now: int): seq<Sample>
  {
    if h == [] then []
    else
      var s := h[|h| - 1];
      YoungerThanEightDays(h[..|h| - 1], now) + (if now - s.timestamp < 8 * SecondsPerDay then [s] else [])
  }

  /** The recent set is exactly the prices of the samples less than eight days old. */
  lemma {:induction false} RecentIsYoungerThanEightDays(h: seq<Sample>, now: int)
    ensures RecentPrices(h, now) == Prices(YoungerThanEightDays(h, now))
  {
    if h != [] {
      var n := |h| - 1;
      RecentIsYoungerThanEightDays(h[..n], now);
      AgeCutoff(h[n].timestamp, now);
      var y := YoungerThanEightDays(h[..n], now);
      if now - h[n].timestamp < 8 * SecondsPerDay {
        assert Prices(y + [h[n]]) == Prices(y) + [h[n].price];
      }
    }
  }

  /** With no sample in the last seven days the reference is the thirty-day mean. */
  lemma NoRecentFallsBack(h: seq<Sample>, now: int)
    requires h != []
    requires forall i :: 0 <= i < |h| ==> AgeInDays(h[i].timestamp, now) > RecentDays
    ensures ReferenceAverage(h, now) == Mean(Prices(h))
  {
    NoRecentIsEmpty(h, now);
  }

  lemma {:induction false} NoRecentIsEmpty(h: seq<Sample>, now: int)
    requires forall i :: 0 <= i < |h| ==> AgeInDays(h[i].timestamp, now) > RecentDays
    ensures RecentPrices(h, now) == []
  {
    if h != [] {
      NoRecentIsEmpty(h[..|h| - 1], now);
    }
  }

  lemma {:induction false} AllRecentIsAll(h: seq<Sample>, now: int)
    requires forall i :: 0 <= i < |h| ==> AgeInDays(h[i].timestamp, now) <= RecentDays
    ensures RecentPrices(h, now) == Prices(h)
  {
    if h != [] {
      var n := |h| - 1;
      AllRecentIsAll(h[..n], now);
      assert Prices(h) == Prices(h[..n]) + [h[n].price];
    }
  }

  /** When every sample is recent the seven-day and thirty-day means coincide. */
  lemma AllRecentSameAverage(h: seq<Sample>, now: int)
    requires h != []
    requires forall i :: 0 <= i < |h| ==> AgeInDays(h[i].timestamp, now) <= RecentDays
    ensures ReferenceAverage(h, now) == Mean(Prices(h))
  {
    AllRecentIsAll(h, now);
  }

  /** The reference average lies within the range of the window's prices. */
  lemma ReferenceWithinPrices(h: seq<Sample>, now: int, lo: real, hi: real)
    requires h != []
    requires forall i :: 0 <= i < |h| ==> lo <= h[i].price <= hi
    ensures lo <= ReferenceAverage(h, now) <= hi
  {
    MeanBounds(Prices(h), lo, hi);
    var recent := RecentPrices(h, now);
    if recent != [] {
      RecentIsYoungerThanEightDays(h, now);
      YoungerSubset(h, now);
      var y := YoungerThanEightDays(h, now);
      forall i | 0 <= i < |recent|
        ensures lo <= recent[i] <= hi
      {
        assert recent[i] == y[i].price && y[i] in y;
      }
      MeanBounds(recent, lo, hi);
    }
  }

  lemma {:induction false} YoungerSubset(h: seq<Sample>, now: int)
    ensures forall x :: x in YoungerThanEightDays(h, now) ==> x in h
  {
    if h != [] {
      YoungerSubset(h[..|h| - 1], now);
    }
  }

  // ---------------------------------------------------------------------
  // Classification

  /** Fewer than two samples give no verdict, whatever the price. */
  lemma TooFewSamples(h: seq<Sample>, current: real, now: int)
    requires |h| < 2
    ensures TrendOf(h, current, now) == InsufficientData
  {
  }

  /**
   * For a non-negative average: High exactly above 110%, Low exactly below
   * 90%, Stable on the closed band between, boundaries included.
   */
  lemma ClassifyBands(current: real, average: real)
    requires average >= 0.0
    ensures Classify(current, average) == High <==> current > average * 1.1
    ensures Classify(current, average) == Low <==> current < average * 0.9
    ensures Classify(current, average) == Stable <==> average * 0.9 <= current <= average * 1.1
  {
  }

  /** Raising a High price keeps it High; lowering a Low price keeps it Low. */
  lemma ClassifyMonotone(p: real, q: real, average: real)
    requires p <= q
    ensures Classify(p, average) == High ==> Classify(q, average) == High
    ensures Classify(q, average) == Low ==> Classify(p, average) == Low
  {
  }

  /**
   * Rows 10, 5 and 2 days old at 50, 52.5 and 51: the seven-day mean is
   * 51.75, so 45 is Low while 55 and 51.5 are Stable.
   */
  lemma WorkedExample(now: int, item: string)
    ensures var rows := [Row(item, "skinport", 50.0, now - 10 * SecondsPerDay),
                         Row(item, "skinport", 52.5, now - 5 * SecondsPerDay),
                         Row(item, "skinport", 51.0, now - 2 * SecondsPerDay)];
            var h := History(rows, item, HistoryDays, now);
            && ReferenceAverage(h, now) == 51.75
            && TrendOf(h, 45.0, now) == Low
            && TrendOf(h, 55.0, now) == Stable
            && TrendOf(h, 51.5, now) == Stable
  {
    var rows := [Row(item, "skinport", 50.0, now - 10 * SecondsPerDay),
                 Row(item, "skinport", 52.5, now - 5 * SecondsPerDay),
                 Row(item, "skinport", 51.0, now - 2 * SecondsPerDay)];
    var s := [Sample(now - 10 * SecondsPerDay, 50.0),
              Sample(now - 5 * SecondsPerDay, 52.5),
              Sample(now - 2 * SecondsPerDay, 51.0)];
    var start := now - HistoryDays * SecondsPerDay;
    assert rows[..2][..1] == rows[..1];
    assert Matching(rows[..1], item, start) == s[..1];
    assert Matching(rows[..2], item, start) == s[..2];
    assert Matching(rows, item, start) == s;
    SortAscendingFixed(s);
    assert History(rows, item, HistoryDays, now) == s;
    assert AgeInDays(s[0].timestamp, now) == 10;
    assert AgeInDays(s[1].timestamp, now) == 5;
    assert AgeInDays(s[2].timestamp, now) == 2;
    assert s[..2][..1] == s[..1];
    assert RecentPrices(s[..1], now) == [];
    assert RecentPrices(s[..2], now) == [52.5];
    assert RecentPrices(s, now) == [52.5, 51.0];
    assert [52.5, 51.0][..1] == [52.5];
    assert Sum([52.5, 51.0]) == 103.5;
  }
}
