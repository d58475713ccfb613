/**
 * The price store: one append-only table of price observations
 * (item, source, price, timestamp). Timestamps are UTC instants in whole
 * seconds since the epoch; the caller passes the clock reading `now`.
 */
module Database {
  import opened Dicts

  /** One row of the `price_history` table. */
  datatype Row = Row(item: string, source: string, price: real, timestamp: int)

  /** A batch of quotes: item -> (source -> price), in dict iteration order. */
  type PriceBatch = Dict<string, Dict<string, real>>

  /** The rows the batch write inserts for one item, in source order. */
  function SourceRows(item: string, sources: Dict<string, real>, ts: int): seq<Row>
  {
    seq(|sources|, j requires 0 <= j < |sources| => Row(item, sources[j].0, sources[j].1, ts))
  }

  /** The rows the batch write inserts: outer loop over items, inner over sources. */
  function Flatten(batch: PriceBatch, ts: int): seq<Row>
  {
    if batch == [] then []
    else
      var last := batch[|batch| - 1];
      Flatten(batch[..|batch| - 1], ts) + SourceRows(last.0, last.1, ts)
  }

  /** The number of (item, source) pairs in a batch: the sum of the inner dict sizes. */
  function PairCount(batch: PriceBatch): nat
  {
    if batch == [] then 0 else PairCount(batch[..|batch| - 1]) + |batch[|batch| - 1].1|
  }

  /** The database: whether the table and its index exist, and the table's rows in insertion order. */
  class Store {
    var tableExists: bool
    var indexExists: bool
    var rows: seq<Row>

    /** A database file with no schema yet. */
    constructor ()
      ensures !tableExists && !indexExists && rows == []
    {
      tableExists, indexExists, rows := false, false, [];
    }

    /**
     * `CREATE TABLE IF NOT EXISTS` followed by `CREATE INDEX IF NOT EXISTS`:
     * afterwards both exist, whatever the state before, and no row changes.
     */
    method CreateTables()
      modifies this
      ensures tableExists && indexExists
      ensures rows == old(rows)
    {
      if !tableExists {
        tableExists := true;
      }
      if !indexExists {
        indexExists := true;
      }
    }

    /**
     * Writes one row per (item, source) pair of the batch, all stamped with
     * the same instant `now`, after the existing rows. A batch with no pairs
     * executes no statement; any other batch needs the table to exist.
     */
    method SavePrices(batch: PriceBatch, now: int)
      requires tableExists || Flatten(batch, now) == []
      modifies this`rows
      ensures rows == old(rows) + Flatten(batch, now)
    {
      var records: seq<Row> := [];
      for i := 0 to |batch|
        invariant records == Flatten(batch[..i], now)
      {
        var (item, sources) := batch[i];
        for j := 0 to |sources|
          invariant records == Flatten(batch[..i], now) + SourceRows(item, sources[..j], now)
        {
          var (source, price) := sources[j];
          assert SourceRows(item, sources[..j + 1], now) == SourceRows(item, sources[..j], now) + [Row(item, source, price, now)];
          records := records + [Row(item, source, price, now)];
        }
        assert sources[..|sources|] == sources;
        assert batch[..i + 1][..i] == batch[..i];
      }
      assert batch[..|batch|] == batch;
      if records == [] {
        return;
      }
      rows := rows + records;
    }
  }

  /** Running the schema set-up twice is the same as running it once. */
  method CreateTablesIdempotent(store: Store)
    modifies store
    ensures store.tableExists && store.indexExists && store.rows == old(store.rows)
  {
    store.CreateTables();
    ghost var once := (store.tableExists, store.indexExists, store.rows);
    store.CreateTables();
    assert (store.tableExists, store.indexExists, store.rows) == once;
  }

  // ---------------------------------------------------------------------
  // What a batch write appends

  /** The table grows by exactly the number of (item, source) pairs in the batch. */
  lemma {:induction false} FlattenSize(batch: PriceBatch, ts: int)
    ensures |Flatten(batch, ts)| == PairCount(batch)
  {
    if batch != [] {
      FlattenSize(batch[..|batch| - 1], ts);
    }
  }

  /** A batch whose inner dicts are all empty (or that has no items) appends nothing. */
  lemma {:induction false} EmptyBatchAppendsNothing(batch: PriceBatch, ts: int)
    requires forall i :: 0 <= i < |batch| ==> batch[i].1 == []
    ensures Flatten(batch, ts) == []
  {
    if batch != [] {
      EmptyBatchAppendsNothing(batch[..|batch| - 1], ts);
    }
  }

  /**
   * A row is appended exactly when it carries the batch's shared timestamp
   * and the item, source and price of one (item, source) pair of the batch.
   */
  lemma {:induction false} FlattenRows(batch: PriceBatch, ts: int, r: Row)
    ensures r in Flatten(batch, ts) <==>
      r.timestamp == ts &&
      exists i, j :: 0 <= i < |batch| && 0 <= j < |batch[i].1| &&
        batch[i].0 == r.item && batch[i].1[j] == (r.source, r.price)
  {
    if batch != [] {
      var n := |batch| - 1;
      var p := batch[..n];
      FlattenRows(p, ts, r);
      var srcs := SourceRows(batch[n].0, batch[n].1, ts);
      assert r in Flatten(batch, ts) <==> r in Flatten(p, ts) || r in srcs;
      if r in srcs {
        var j :| 0 <= j < |srcs| && srcs[j] == r;
        assert batch[n].1[j] == (r.source, r.price);
      }
      if r.timestamp == ts && (exists i, j :: 0 <= i < |batch| && 0 <= j < |batch[i].1| &&
                                batch[i].0 == r.item && batch[i].1[j] == (r.source, r.price)) {
        var i, j :| 0 <= i < |batch| && 0 <= j < |batch[i].1| &&
          batch[i].0 == r.item && batch[i].1[j] == (r.source, r.price);
        if i == n {
          assert srcs[j] == r;
        } else {
          assert p[i] == batch[i];
        }
      }
    }
  }
}
