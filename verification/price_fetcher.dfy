/**
 * The pricing gateway after its HTTP response: a lookup table built from
 * the whole Skinport catalog, filtered down to the requested names, and
 * wrapped into the item -> {source -> price} shape the store writes.
 */
module PriceFetcher {
  import opened Options
  import opened Dicts

  /** The one pricing source, and the inner key under which its quotes are stored. */
  const Skinport: string := "skinport"

  /** A catalog entry's `suggested_price` after JSON decoding. */
  datatype SuggestedPrice =
    | NoPrice              // absent or null: `item.get("suggested_price")` is None
    | Amount(value: real)  // a value that `float()` converts
    | NotANumber           // a value on which `float()` raises ValueError

  datatype CatalogItem = CatalogItem(marketHashName: string, suggestedPrice: SuggestedPrice)

  /** The outcome of the catalog request, once decoded. */
  datatype CatalogResponse =
    | RequestFailed                   // a transport error or an error status (RequestException)
    | NotJson                         // the body is not JSON (ValueError)
    | Catalog(items: seq<CatalogItem>)

  /** `{item["market_hash_name"]: item.get("suggested_price") for item in all_items}`. */
  function PriceTable(items: seq<CatalogItem>): Dict<string, SuggestedPrice>
  {
    FromSeq(seq(|items|, i requires 0 <= i < |items| => (items[i].marketHashName, items[i].suggestedPrice)))
  }

  /** Some requested name has a catalog price that `float()` rejects. */
  predicate Unparsable(names: seq<string>, table: Dict<string, SuggestedPrice>)
  {
    exists i :: 0 <= i < |names| && Get(table, names[i]) == Some(NotANumber)
  }

  /** What the filtering loop accumulates, name by name, while no conversion fails. */
  function Found(names: seq<string>, table: Dict<string, SuggestedPrice>): Dict<string, real>
  {
    if names == [] then []
    else
      var d := Found(names[..|names| - 1], table);
      var name := names[|names| - 1];
      var entry: Option<SuggestedPrice> := Get(table, name);
      if entry.Some? && entry.value.Amount? then Set(d, name, entry.value.value) else d
  }

  /** The result of `get_prices_from_skinport`: empty on any caught error. */
  function SkinportPrices(names: seq<string>, response: CatalogResponse): Dict<string, real>
  {
    match response
    case RequestFailed => []
    case NotJson => []
    case Catalog(items) =>
      var table := PriceTable(items);
      if Unparsable(names, table) then [] else Found(names, table)
  }

  /**
   * `get_prices_from_skinport`: builds the lookup table, then keeps each
   * requested name that has a non-null price; a price `float()` rejects
   * abandons the partial result and yields an empty dict.
   */
  method GetPricesFromSkinport(names: seq<string>, response: CatalogResponse) returns (prices: Dict<string, real>)
    ensures prices == SkinportPrices(names, response)
    ensures forall n :: HasKey(prices, n) ==> n in names
  {
    prices := [];
    match response
    case RequestFailed =>
    case NotJson =>
    case Catalog(items) =>
      var table := PriceTable(items);
      for i := 0 to |names|
        invariant prices == Found(names[..i], table)
        invariant !Unparsable(names[..i], table)
      {
        var name := names[i];
        assert names[..i + 1][..i] == names[..i];
        var entry := Get(table, name);
        if entry.Some? {
          match entry.value
          case NotANumber =>
            assert Unparsable(names, table) by {
              assert Get(table, names[i]) == Some(NotANumber);
            }
            return [];
          case Amount(p) =>
            prices := Set(prices, name, p);
          case NoPrice =>
        }
        assert forall j :: 0 <= j <= i ==> names[..i + 1][j] == names[j];
      }
      assert names[..|names|] == names;
    SkinportPricesSpec(names, response);
  }

  /** The inner dict `fetch_all_prices` reports for one item. */
  function Quote(prices: Dict<string, real>, item: string): Dict<string, real>
  {
    match Get(prices, item)
    case Some(p) => [(Skinport, p)]
    case None => []
  }

  /** What the merge loop makes of `all_prices`, one Skinport quote at a time. */
  function Fill(all: Dict<string, Dict<string, real>>, prices: Dict<string, real>): Dict<string, Dict<string, real>>
  {
    if prices == [] then all
    else
      var d := Fill(all, prices[..|prices| - 1]);
      var (item, p) := prices[|prices| - 1];
      match Get(d, item)
      case Some(inner) => Set(d, item, Set(inner, Skinport, p))
      case None => d
  }

  /** `{item: {} for item in item_names}`. */
  function Blank(names: seq<string>): Dict<string, Dict<string, real>>
  {
    FromSeq(seq(|names|, i requires 0 <= i < |names| => (names[i], [])))
  }

  /** The result of `fetch_all_prices`. */
  function AllPrices(names: seq<string>, response: CatalogResponse): Dict<string, Dict<string, real>>
  {
    Fill(Blank(names), SkinportPrices(names, response))
  }

  /**
   * `fetch_all_prices`: an empty inner dict for every requested item, then
   * each Skinport quote stored under the "skinport" source.
   */
  method FetchAllPrices(names: seq<string>, response: CatalogResponse) returns (allPrices: Dict<string, Dict<string, real>>)
    ensures allPrices == AllPrices(names, response)
  {
    allPrices := Blank(names);
    var prices := GetPricesFromSkinport(names, response);
    for j := 0 to |prices|
      invariant allPrices == Fill(Blank(names), prices[..j])
    {
      var (item, p) := prices[j];
      assert prices[..j + 1][..j] == prices[..j];
      if HasKey(allPrices, item) {
        var inner := Get(allPrices, item).value;
        allPrices := Set(allPrices, item, Set(inner, Skinport, p));
      }
    }
    assert prices[..|prices|] == prices;
  }

  // ---------------------------------------------------------------------
  // Properties of the lookup

  /**
   * When the catalog repeats a name the last entry wins: a name is in the
   * table exactly when some entry has it, with the price of the last such entry.
   */
  lemma PriceTableLastWins(items: seq<CatalogItem>, name: string)
    ensures !HasKey(PriceTable(items), name) <==> forall i :: 0 <= i < |items| ==> items[i].marketHashName != name
    ensures HasKey(PriceTable(items), name) ==>
      exists i :: 0 <= i < |items| && items[i].marketHashName == name &&
        items[i].suggestedPrice == Get(PriceTable(items), name).value &&
        forall j :: i < j < |items| ==> items[j].marketHashName != name
  {
    var ps := seq(|items|, i requires 0 <= i < |items| => (items[i].marketHashName, items[i].suggestedPrice));
    FromSeqGet(ps, name);
    assert forall i :: 0 <= i < |items| ==> ps[i].0 == items[i].marketHashName;
  }

  lemma {:induction false} FoundSpec(names: seq<string>, table: Dict<string, SuggestedPrice>, n: string)
    ensures Valid(Found(names, table))
    ensures HasKey(Found(names, table), n) <==> n in names && Get(table, n).Some? && Get(table, n).value.Amount?
    ensures HasKey(Found(names, table), n) ==> Get(table, n) == Some(Amount(Get(Found(names, table), n).value))
  {
    if names != [] {
      var m := |names| - 1;
      var name := names[m];
      FoundSpec(names[..m], table, n);
      var d := Found(names[..m], table);
      assert names == names[..m] + [name];
      var entry := Get(table, name);
      if entry.Some? && entry.value.Amount? {
        ValidSet(d, name, entry.value.value);
        GetSet(d, name, entry.value.value, n);
      }
    }
  }

  /**
   * The gateway's result: its keys are requested names; on a failed request,
   * an undecodable body or an unconvertible requested price it is empty;
   * otherwise it holds exactly the requested names the catalog prices, each
   * with that price.
   */
  lemma SkinportPricesSpec(names: seq<string>, response: CatalogResponse)
    ensures Valid(SkinportPrices(names, response))
    ensures forall n :: HasKey(SkinportPrices(names, response), n) ==> n in names
    ensures !response.Catalog? ==> SkinportPrices(names, response) == []
    ensures response.Catalog? && Unparsable(names, PriceTable(response.items)) ==> SkinportPrices(names, response) == []
    ensures response.Catalog? && !Unparsable(names, PriceTable(response.items)) ==>
      forall n, p :: Get(SkinportPrices(names, response), n) == Some(p) <==>
        n in names && Get(PriceTable(response.items), n) == Some(Amount(p))
  {
    if response.Catalog? {
      var table := PriceTable(response.items);
      forall n
        ensures Valid(Found(names, table))
        ensures HasKey(Found(names, table), n) <==> n in names && Get(table, n).Some? && Get(table, n).value.Amount?
        ensures HasKey(Found(names, table), n) ==> Get(table, n) == Some(Amount(Get(Found(names, table), n).value))
      {
        FoundSpec(names, table, n);
      }
    }
  }

  // ---------------------------------------------------------------------
  // Properties of the merge

  lemma {:induction false} FillSpec(all: Dict<string, Dict<string, real>>, prices: Dict<string, real>, k: string)
    requires Valid(prices)
    requires forall k' :: HasKey(all, k') ==> Get(all, k') == Some([])
    ensures Keys(Fill(all, prices)) == Keys(all)
    ensures Get(Fill(all, prices), k) == if HasKey(all, k) then Some(Quote(prices, k)) else None
  {
    if prices != [] {
      var n := |prices| - 1;
      var (item, p) := prices[n];
      var rest := prices[..n];
      ValidPrefix(prices);
      FillSpec(all, rest, k);
      FillSpec(all, rest, item);
      GetAppend(rest, prices[n], k);
      GetAppend(rest, prices[n], item);
      assert prices == rest + [prices[n]];
      var d := Fill(all, rest);
      if HasKey(d, item) {
        assert Get(d, item) == Some([]);
        var inner: Dict<string, real> := [];
        GetSet(d, item, Set(inner, Skinport, p), k);
        HasKeyIffKey(d, item);
        KeysSet(d, item, Set(inner, Skinport, p));
      }
    }
  }

  /**
   * `fetch_all_prices` has one entry per distinct requested item, in request
   * order; each inner dict is `{"skinport": p}` when the gateway priced the
   * item at `p`, and empty otherwise.
   */
  lemma AllPricesSpec(names: seq<string>, response: CatalogResponse, k: string)
    ensures Valid(AllPrices(names, response))
    ensures Keys(AllPrices(names, response)) == Dedup(names)
    ensures Get(AllPrices(names, response), k) ==
      if k in names then Some(Quote(SkinportPrices(names, response), k)) else None
  {
    var empty: Dict<string, real> := [];
    var ps := seq(|names|, i requires 0 <= i < |names| => (names[i], empty));
    assert Keys(ps) == names;
    FromSeqKeys(ps);
    DedupSpec(names);
    HasKeyIffKey(Blank(names), k);
    forall k' | HasKey(Blank(names), k')
      ensures Get(Blank(names), k') == Some([])
    {
      FromSeqGet(ps, k');
    }
    SkinportPricesSpec(names, response);
    FillSpec(Blank(names), SkinportPrices(names, response), k);
  }
}
