/**
 * The orchestrator: inventory -> prices -> store -> analysis, for every
 * distinct inventory item, assembled into a per-item report.
 */
module Tracker {
  import opened Options
  import opened Dicts
  import opened StringOrder
  import opened Database
  import opened Analysis
  import PriceFetcher
  import SteamClient

  /** The `trend` field of a report entry. */
  datatype Verdict = Analysed(trend: Trend) | PriceNotAvailable

  /** `{"current_price": ..., "trend": ...}`. */
  datatype ItemReport = ItemReport(currentPrice: Option<real>, verdict: Verdict)

  /**
   * What `run_tracker` returns. The failure value is the 3-tuple
   * `(None, None, None)`, the success value the 2-tuple
   * `(unique_inventory_items, analysis_results)`.
   */
  datatype RunOutcome = InventoryUnavailable | Completed(items: seq<string>, report: Dict<string, ItemReport>)

  /** `current_prices.get(item, {}).get("skinport")`. */
  function SkinportQuote(prices: Dict<string, Dict<string, real>>, item: string): Option<real>
  {
    match Get(prices, item)
    case Some(inner) => Get(inner, PriceFetcher.Skinport)
    case None => None
  }

  /** The report entry for one item, given the store's rows at analysis time. */
  function ReportFor(rows: seq<Row>, prices: Dict<string, Dict<string, real>>, item: string, now: int): ItemReport
  {
    match SkinportQuote(prices, item)
    case Some(p) => ItemReport(Some(p), Analysed(TrendOf(History(rows, item, HistoryDays, now), p, now)))
    case None => ItemReport(None, PriceNotAvailable)
  }

  /** What the report loop builds, item by item. */
  function Report(rows: seq<Row>, prices: Dict<string, Dict<string, real>>, items: seq<string>, now: int): Dict<string, ItemReport>
  {
    if items == [] then []
    else
      var item := items[|items| - 1];
      Set(Report(rows, prices, items[..|items| - 1], now), item, ReportFor(rows, prices, item, now))
  }

  /**
   * `run_tracker`: set up the schema; fetch the inventory and stop if it is
   * empty; otherwise deduplicate and sort it, fetch prices, save them, and
   * only then analyse each item against the store.
   */
  method RunTracker(store: Store, useTestData: bool, inventoryResponse: SteamClient.InventoryResponse,
                    catalogResponse: PriceFetcher.CatalogResponse, now: int) returns (outcome: RunOutcome)
    modifies store
    ensures store.tableExists && store.indexExists
    ensures SteamClient.Inventory(useTestData, inventoryResponse) == [] ==>
      outcome == InventoryUnavailable && store.rows == old(store.rows)
    ensures SteamClient.Inventory(useTestData, inventoryResponse) != [] ==>
      var items := SortedUnique(SteamClient.Inventory(useTestData, inventoryResponse));
      var prices := PriceFetcher.AllPrices(items, catalogResponse);
      && store.rows == old(store.rows) + Flatten(prices, now)
      && outcome == Completed(items, Report(store.rows, prices, items, now))
  {
    store.CreateTables();
    var inventory := SteamClient.GetInventory(useTestData, inventoryResponse);
    if inventory == [] {
      return InventoryUnavailable;
    }
    var items := SortedUnique(inventory);
    var prices := PriceFetcher.FetchAllPrices(items, catalogResponse);
    store.SavePrices(prices, now);
    var report := AnalyseItems(store, items, prices, now);
    outcome := Completed(items, report);
  }

  /**
   * The report loop of `run_tracker`: for each item, its Skinport quote and
   * either the analyser's trend against the store or "Price not available.".
   */
  method AnalyseItems(store: Store, items: seq<string>, prices: Dict<string, Dict<string, real>>, now: int)
    returns (report: Dict<string, ItemReport>)
    requires store.tableExists
    ensures report == Report(store.rows, prices, items, now)
  {
    report := [];
    for i := 0 to |items|
      invariant report == Report(store.rows, prices, items[..i], now)
    {
      var item := items[i];
      var quote := SkinportQuote(prices, item);
      var verdict: Verdict;
      if quote.Some? {
        var trend := AnalyzeItemTrend(store, item, quote.value, now);
        verdict := Analysed(trend);
      } else {
        verdict := PriceNotAvailable;
      }
      assert items[..i + 1][..i] == items[..i];
      report := Set(report, item, ItemReport(quote, verdict));
    }
    assert items[..|items|] == items;
  }

  // ---------------------------------------------------------------------
  // The report

  lemma {:induction false} ReportSpec(rows: seq<Row>, prices: Dict<string, Dict<string, real>>, items: seq<string>, now: int, k: string)
    ensures Keys(Report(rows, prices, items, now)) == Dedup(items)
    ensures Get(Report(rows, prices, items, now), k) == if k in items then Some(ReportFor(rows, prices, k, now)) else None
  {
    if items != [] {
      var n := |items| - 1;
      var d := Report(rows, prices, items[..n], now);
      ReportSpec(rows, prices, items[..n], now, k);
      ReportSpec(rows, prices, items[..n], now, items[n]);
      KeysSet(d, items[n], ReportFor(rows, prices, items[n], now));
      GetSet(d, items[n], ReportFor(rows, prices, items[n], now), k);
      HasKeyIffKey(d, items[n]);
      DedupSpec(items[..n]);
      assert items == items[..n] + [items[n]];
    }
  }

  /**
   * A completed run lists the inventory's distinct items in ascending order,
   * and its report has exactly those keys, each with its own entry.
   */
  lemma CompletedReport(inventory: seq<string>, rows: seq<Row>, prices: Dict<string, Dict<string, real>>, now: int, k: string)
    ensures StrictlyAscending(SortedUnique(inventory))
    ensures forall x :: x in SortedUnique(inventory) <==> x in inventory
    ensures Keys(Report(rows, prices, SortedUnique(inventory), now)) == SortedUnique(inventory)
    ensures Get(Report(rows, prices, SortedUnique(inventory), now), k) ==
      if k in inventory then Some(ReportFor(rows, prices, k, now)) else None
  {
    var items := SortedUnique(inventory);
    SortedUniqueSpec(inventory);
    forall i, j | 0 <= i < j < |items|
      ensures items[i] != items[j]
    {
      StrictlyAscendingDistinct(items, i, j);
    }
    DedupDistinct(items);
    ReportSpec(rows, prices, items, now, k);
  }

  /** The quote the report uses is the gateway's price for that item, if any. */
  lemma QuoteOfAllPrices(items: seq<string>, response: PriceFetcher.CatalogResponse, k: string)
    ensures SkinportQuote(PriceFetcher.AllPrices(items, response), k) ==
      if k in items then Get(PriceFetcher.SkinportPrices(items, response), k) else None
  {
    PriceFetcher.AllPricesSpec(items, response, k);
  }

  /**
   * A price fetch that yields nothing (a failed request, a body that is not
   * JSON, an unconvertible price, or no requested item in the catalog) does
   * not stop the run: nothing is written, and every item is reported with no
   * price and "Price not available.".
   */
  lemma PricingFailureStillReports(items: seq<string>, response: PriceFetcher.CatalogResponse, rows: seq<Row>, now: int, k: string)
    requires PriceFetcher.SkinportPrices(items, response) == []
    ensures Flatten(PriceFetcher.AllPrices(items, response), now) == []
    ensures ReportFor(rows, PriceFetcher.AllPrices(items, response), k, now) == ItemReport(None, PriceNotAvailable)
  {
    var all := PriceFetcher.AllPrices(items, response);
    QuoteOfAllPrices(items, response, k);
    PriceFetcher.AllPricesSpec(items, response, k);
    forall i | 0 <= i < |all|
      ensures all[i].1 == []
    {
      GetAt(all, i);
      PriceFetcher.AllPricesSpec(items, response, all[i].0);
    }
    EmptyBatchAppendsNothing(all, now);
  }

  /**
   * Prices are saved before they are analysed: a priced item's history at
   * analysis time contains the sample just written for it.
   */
  lemma SavedBeforeAnalysed(before: seq<Row>, items: seq<string>, response: PriceFetcher.CatalogResponse, now: int, k: string)
    requires SkinportQuote(PriceFetcher.AllPrices(items, response), k).Some?
    ensures Sample(now, SkinportQuote(PriceFetcher.AllPrices(items, response), k).value)
      in History(before + Flatten(PriceFetcher.AllPrices(items, response), now), k, HistoryDays, now)
  {
    SavedQuoteInHistory(before, PriceFetcher.AllPrices(items, response), now, k, PriceFetcher.Skinport, HistoryDays);
  }

  /**
   * An item priced for the first time has exactly one sample, the one just
   * saved, so its trend is InsufficientData.
   */
  lemma FirstQuoteIsInsufficient(before: seq<Row>, items: seq<string>, response: PriceFetcher.CatalogResponse, now: int, k: string)
    requires SkinportQuote(PriceFetcher.AllPrices(items, response), k).Some?
    requires forall i :: 0 <= i < |before| ==> before[i].item != k
    ensures var all := PriceFetcher.AllPrices(items, response);
      var p := SkinportQuote(all, k).value;
      && History(before + Flatten(all, now), k, HistoryDays, now) == [Sample(now, p)]
      && ReportFor(before + Flatten(all, now), all, k, now) == ItemReport(Some(p), Analysed(InsufficientData))
  {
    var all := PriceFetcher.AllPrices(items, response);
    var p := SkinportQuote(all, k).value;
    var start := now - HistoryDays * SecondsPerDay;
    PricedEntry(items, response, k);
    NoRowsNoMatches(before, k, start);
    MatchingAppend(before, Flatten(all, now), k, start);
    MatchingFlatten(all, now, k, start);
    var one := [Sample(now, p)];
    assert Matching(Flatten(all, now), k, start) == one;
    assert Matching(before + Flatten(all, now), k, start) == [] + one;
    assert SortByTime(one) == one;
  }

  /** A priced item's entry in the merged prices is `{"skinport": p}`. */
  lemma PricedEntry(items: seq<string>, response: PriceFetcher.CatalogResponse, k: string)
    requires SkinportQuote(PriceFetcher.AllPrices(items, response), k).Some?
    ensures Valid(PriceFetcher.AllPrices(items, response))
    ensures Get(PriceFetcher.AllPrices(items, response), k) ==
      Some([(PriceFetcher.Skinport, SkinportQuote(PriceFetcher.AllPrices(items, response), k).value)])
  {
    PriceFetcher.AllPricesSpec(items, response, k);
  }

  /** In test mode the run always completes, over the five test items. */
  lemma TestModeCompletes(response: SteamClient.InventoryResponse)
    ensures SteamClient.Inventory(true, response) != []
    ensures forall x :: x in SortedUnique(SteamClient.Inventory(true, response)) <==> x in SteamClient.TestInventory
  {
    SortedUniqueSpec(SteamClient.TestInventory);
  }
}
