/**
 * The inventory gateway after its HTTP response: a table from
 * `classid_instanceid` to `market_hash_name` built from the descriptions,
 * then one name per held asset whose key is in that table.
 */
module SteamClient {
  import opened Options
  import opened Dicts

  /** The `instanceid` of a description: absent, JSON `null`, or a string. */
  datatype InstanceId = Absent | Null | Given(id: string)

  /** An entry of `descriptions`. */
  datatype Description = Description(classId: string, instanceId: InstanceId, marketHashName: string)

  /** An entry of `assets`: one held instance. */
  datatype Asset = Asset(classId: string, instanceId: string)

  /** The outcome of the inventory request, once decoded. */
  datatype InventoryResponse =
    | RequestFailed   // a transport error or an error status (RequestException)
    | NotJson         // the body is not JSON (ValueError), as for a private inventory
    | Payload(success: Option<int>, descriptions: Option<seq<Description>>, assets: Option<seq<Asset>>)

  /** The fixed inventory returned in test mode. */
  const TestInventory: seq<string> := [
    "AK-47 | Redline (Field-Tested)",
    "AWP | Asiimov (Field-Tested)",
    "Glock-18 | Water Elemental (Minimal Wear)",
    "USP-S | Kill Confirmed (Field-Tested)",
    "★ Karambit | Doppler (Factory New)"
  ]

  /**
   * The description key: a missing instance id reads as "0", and a `null`
   * one is formatted as Python's "None".
   */
  function DescriptionKey(d: Description): string
  {
    d.classId + "_" + (match d.instanceId case Given(i) => i case Absent => "0" case Null => "None")
  }

  /** `f"{asset['classid']}_{asset['instanceid']}"`. */
  function AssetKey(a: Asset): string
  {
    a.classId + "_" + a.instanceId
  }

  /** The description table (a dict comprehension, so a later duplicate key wins). */
  function DescriptionTable(ds: seq<Description>): Dict<string, string>
  {
    FromSeq(seq(|ds|, i requires 0 <= i < |ds| => (DescriptionKey(ds[i]), ds[i].marketHashName)))
  }

  /** What the loop over the assets appends, asset by asset. */
  function Matched(assets: seq<Asset>, table: Dict<string, string>): seq<string>
  {
    if assets == [] then []
    else
      var a := assets[|assets| - 1];
      Matched(assets[..|assets| - 1], table) +
        (match Get(table, AssetKey(a)) case Some(name) => [name] case None => [])
  }

  /** The result of `get_inventory`. */
  function Inventory(useTestData: bool, response: InventoryResponse): seq<string>
  {
    if useTestData then TestInventory
    else match response
      case Payload(success, Some(ds), assets) =>
        if success == Some(1) then
          Matched(match assets case Some(s) => s case None => [], DescriptionTable(ds))
        else []
      case _ => []
  }

  /**
   * `get_inventory`: the test list in test mode; otherwise, after a
   * successful response carrying descriptions, the names of the held assets
   * in asset order; an empty list on every failure.
   */
  method GetInventory(useTestData: bool, response: InventoryResponse) returns (names: seq<string>)
    ensures names == Inventory(useTestData, response)
    ensures useTestData ==> names == TestInventory
    ensures !useTestData && !(response.Payload? && response.success == Some(1) && response.descriptions.Some?) ==> names == []
  {
    if useTestData {
      return TestInventory;
    }
    names := [];
    if response.Payload? && response.success == Some(1) && response.descriptions.Some? {
      var table := DescriptionTable(response.descriptions.value);
      var assets := match response.assets case Some(s) => s case None => [];
      for i := 0 to |assets|
        invariant names == Matched(assets[..i], table)
      {
        var key := AssetKey(assets[i]);
        if HasKey(table, key) {
          names := names + [Get(table, key).value];
        }
        assert assets[..i + 1][..i] == assets[..i];
      }
      assert assets[..|assets|] == assets;
    }
  }

  // ---------------------------------------------------------------------
  // Properties of the join

  /**
   * A key is in the description table exactly when some description has it,
   * and it names the LAST description with that key.
   */
  lemma DescriptionTableLastWins(ds: seq<Description>, key: string)
    ensures !HasKey(DescriptionTable(ds), key) <==> forall i :: 0 <= i < |ds| ==> DescriptionKey(ds[i]) != key
    ensures HasKey(DescriptionTable(ds), key) ==>
      exists i :: 0 <= i < |ds| && DescriptionKey(ds[i]) == key &&
        ds[i].marketHashName == Get(DescriptionTable(ds), key).value &&
        forall j :: i < j < |ds| ==> DescriptionKey(ds[j]) != key
  {
    var ps := seq(|ds|, i requires 0 <= i < |ds| => (DescriptionKey(ds[i]), ds[i].marketHashName));
    FromSeqGet(ps, key);
    assert forall i :: 0 <= i < |ds| ==> ps[i].0 == DescriptionKey(ds[i]);
  }

  /**
   * The join emits at most one name per asset, each the name of some
   * description; when every asset matches, it emits exactly one name per
   * asset, position by position.
   */
  lemma {:induction false} MatchedSpec(assets: seq<Asset>, ds: seq<Description>)
    ensures |Matched(assets, DescriptionTable(ds))| <= |assets|
    ensures forall name :: name in Matched(assets, DescriptionTable(ds)) ==>
      exists i :: 0 <= i < |ds| && ds[i].marketHashName == name
    ensures (forall k :: 0 <= k < |assets| ==> HasKey(DescriptionTable(ds), AssetKey(assets[k]))) ==>
      |Matched(assets, DescriptionTable(ds))| == |assets| &&
      forall k :: 0 <= k < |assets| ==>
        Matched(assets, DescriptionTable(ds))[k] == Get(DescriptionTable(ds), AssetKey(assets[k])).value
  {
    if assets != [] {
      var n := |assets| - 1;
      var table := DescriptionTable(ds);
      MatchedSpec(assets[..n], ds);
      var key := AssetKey(assets[n]);
      if HasKey(table, key) {
        DescriptionTableLastWins(ds, key);
      }
      if forall k :: 0 <= k < |assets| ==> HasKey(table, AssetKey(assets[k])) {
        assert forall k :: 0 <= k < n ==> HasKey(table, AssetKey(assets[..n][k]));
      }
    }
  }

  /** One asset contributes its name when its key is in the table, and nothing otherwise. */
  lemma MatchedOne(x: Asset, table: Dict<string, string>)
    ensures Matched([x], table) == (match Get(table, AssetKey(x)) case Some(name) => [name] case None => [])
  {
    assert [x][..0] == [];
  }

  /**
   * The join works asset by asset: the contributions of `MatchedOne` are
   * concatenated in asset order, so unmatched assets are simply dropped.
   */
  lemma {:induction false} MatchedAppend(a: seq<Asset>, b: seq<Asset>, table: Dict<string, string>)
    ensures Matched(a + b, table) == Matched(a, table) + Matched(b, table)
  {
    if b != [] {
      var n := |b| - 1;
      MatchedAppend(a, b[..n], table);
      assert (a + b)[..|a + b| - 1] == a + b[..n];
      assert (a + b)[|a + b| - 1] == b[n];
    } else {
      assert a + b == a;
    }
  }
}
