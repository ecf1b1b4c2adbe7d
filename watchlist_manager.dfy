/** `WatchlistManager`: the in-memory map from `(exchange, symbol)` to
    `WatchItem`, with its optional durable store. Each mutation updates the map
    and then writes the affected rows to the store; a store failure (`storeOk ==
    false`) leaves the rows as they were and the map updated. Every method takes
    the current time `now`. */
module WatchlistManagement {
  import opened Options
  import opened Text
  import opened Watchlist
  import opened WatchlistStorage

  /** `is_active` on a map, for keys given in any spelling. */
  predicate IsActiveIn(items: Items, exchange: string, symbol: string, now: int) {
    var key := (NormalizeExchange(exchange), NormalizeSymbol(symbol));
    key in items && Active(items[key], now)
  }

  /** Every entry sits under its own key. */
  predicate WellKeyed(items: Items) {
    forall k :: k in items ==> KeyOf(items[k]) == k
  }

  /** Every key is normalised. */
  predicate KeysNormalized(items: Items) {
    forall k :: k in items ==> NormalizedKey(k)
  }

  /** `is_active`, `active_pairs`, `active_symbols` and the snapshot's `active`
      flag all apply the same test: a pair is in `active_pairs` exactly when
      `is_active` holds for it, a symbol is in `active_symbols` exactly when one of
      its pairs is active, and a snapshot row is flagged active exactly then. */
  lemma ActiveViewsAgree(items: Items, now: int)
    requires WellKeyed(items) && KeysNormalized(items)
    ensures forall k :: k in ActiveKeys(items, now) <==> k in items && IsActiveIn(items, k.0, k.1, now)
    ensures forall s :: s in ActiveSymbolsOf(items, now) <==> exists k :: k in ActiveKeys(items, now) && k.1 == s
    ensures forall k :: k in items ==> (EntryOf(items[k], now).active <==> IsActiveIn(items, k.0, k.1, now))
  {
  }

  /** The key of a snapshot row. */
  function RowKey(e: SnapshotEntry): Key {
    (e.exchange, e.symbol)
  }

  /** The item `load_from_store` installs for a stored one. */
  function Normalized(item: WatchItem): WatchItem {
    item.(exchange := NormalizeExchange(item.exchange), symbol := NormalizeSymbol(item.symbol))
  }

  /** The map after `load_from_store` has installed the loaded items in order. */
  function Hydrate(items: Items, loaded: seq<WatchItem>): Items
    decreases |loaded|
  {
    if loaded == [] then items
    else
      var n := |loaded| - 1;
      Hydrate(items, loaded[..n])[KeyOf(Normalized(loaded[n])) := Normalized(loaded[n])]
  }

  /** `add` keeps every entry under its own key. */
  lemma {:induction false} AddAllWellKeyed(items: Items, targets: seq<string>, symbol: string, now: int,
                                           expireAt: Option<int>, source: Option<string>, reason: Option<string>)
    requires WellKeyed(items)
    ensures WellKeyed(AddAll(items, targets, symbol, now, expireAt, source, reason))
    decreases |targets|
  {
    if targets != [] {
      AddAllWellKeyed(items, targets[..|targets| - 1], symbol, now, expireAt, source, reason);
    }
  }

  /** Loading keeps every entry under its own key. */
  lemma {:induction false} HydrateWellKeyed(items: Items, loaded: seq<WatchItem>)
    requires WellKeyed(items)
    ensures WellKeyed(Hydrate(items, loaded))
    decreases |loaded|
  {
    if loaded != [] {
      HydrateWellKeyed(items, loaded[..|loaded| - 1]);
    }
  }

  lemma HydrateStep(items: Items, loaded: seq<WatchItem>)
    requires loaded != []
    ensures var n := |loaded| - 1;
            Hydrate(items, loaded) == Hydrate(items, loaded[..n])[KeyOf(Normalized(loaded[n])) := Normalized(loaded[n])]
  {
  }

  lemma UpsertStep(rows: Items, items: seq<WatchItem>)
    requires items != []
    ensures var n := |items| - 1;
            UpsertAll(rows, items) == UpsertAll(rows, items[..n])[KeyOf(items[n]) := items[n]]
  {
  }

  /** Rows stored under normalised keys load back unchanged. */
  lemma {:induction false} HydrateNormalized(items: Items, loaded: seq<WatchItem>)
    requires forall i :: 0 <= i < |loaded| ==> NormalizedKey(KeyOf(loaded[i]))
    ensures Hydrate(items, loaded) == UpsertAll(items, loaded)
    decreases |loaded|
  {
    if loaded != [] {
      var n := |loaded| - 1;
      var init := loaded[..n];
      var item := loaded[n];
      assert NormalizedKey(KeyOf(item));
      assert forall i :: 0 <= i < n ==> init[i] == loaded[i];
      HydrateNormalized(items, init);
      HydrateStep(items, loaded);
      UpsertStep(items, loaded);
      assert Normalized(item) == item;
    }
  }

  /** Writing back the entries `add` changed brings a store that mirrored the old
      map to the new map. */
  lemma AddThenUpsert(items: Items, targets: seq<string>, symbol: string, now: int,
                      expireAt: Option<int>, source: Option<string>, reason: Option<string>)
    ensures var after := AddAll(items, targets, symbol, now, expireAt, source, reason);
            items + (map k | k in after && k in TargetKeys(targets, symbol) :: after[k]) == after
  {
    AddAllClosedForm(items, targets, symbol, now, expireAt, source, reason);
  }

  /** `rows` holds the snapshot rows of the distinct keys `keys`, in that order. */
  predicate RowsFor(items: Items, now: int, keys: seq<Key>, rows: seq<SnapshotEntry>) {
    && |rows| == |keys| && NoDup(keys)
    && (forall i :: 0 <= i < |keys| ==> keys[i] in items && rows[i] == EntryOf(items[keys[i]], now))
  }

  /** `list.sort` by `(symbol, exchange)`, as insertion into a sorted list. */
  function SortRows(rows: seq<SnapshotEntry>): seq<SnapshotEntry>
    decreases |rows|
  {
    if rows == [] then [] else InsertSorted(SortRows(rows[..|rows| - 1]), rows[|rows| - 1])
  }

  /** Rows with distinct sort keys sort into a sorted permutation of themselves. */
  lemma {:induction false} SortRowsFacts(rows: seq<SnapshotEntry>)
    requires forall i, j :: 0 <= i < j < |rows| ==> RowKey(rows[i]) != RowKey(rows[j])
    ensures SortedEntries(SortRows(rows))
    ensures |SortRows(rows)| == |rows|
    ensures forall x :: x in SortRows(rows) <==> x in rows
    decreases |rows|
  {
    if rows != [] {
      var n := |rows| - 1;
      var init := rows[..n];
      assert forall i :: 0 <= i < n ==> init[i] == rows[i];
      SortRowsFacts(init);
      var sorted := SortRows(init);
      forall i | 0 <= i < |sorted|
        ensures (sorted[i].symbol, sorted[i].exchange) != (rows[n].symbol, rows[n].exchange)
      {
        assert sorted[i] in init;
      }
      InsertSortedFacts(sorted, rows[n]);
      assert forall x :: x in rows <==> x in init || x == rows[n] by {
        assert rows == init + [rows[n]];
      }
    }
  }

  /** Sorting the rows of every key gives the whole snapshot. */
  lemma AllRows(items: Items, now: int, keys: seq<Key>, rows: seq<SnapshotEntry>)
    requires WellKeyed(items) && RowsFor(items, now, keys, rows)
    requires forall k :: k in keys <==> k in items
    ensures SortedEntries(SortRows(rows))
    ensures |SortRows(rows)| == |items|
    ensures forall k :: k in items ==> EntryOf(items[k], now) in SortRows(rows)
    ensures forall x :: x in SortRows(rows) ==> exists k :: k in items && x == EntryOf(items[k], now)
  {
    assert forall i :: 0 <= i < |rows| ==> RowKey(rows[i]) == keys[i];
    SortRowsFacts(rows);
    DistinctCard(keys);
    assert (set k | k in keys) == items.Keys;
    forall k | k in items ensures EntryOf(items[k], now) in rows {
      var i :| 0 <= i < |keys| && keys[i] == k;
    }
    forall x | x in SortRows(rows) ensures exists k :: k in items && x == EntryOf(items[k], now) {
      var i :| 0 <= i < |rows| && rows[i] == x;
      assert keys[i] in items;
    }
  }

  /** The rows of `snapshot`: one per entry, in the order `(symbol, exchange)`:
      the loop appends a row per entry, then the list is sorted. */
  method SnapshotRows(items: Items, now: int) returns (out: seq<SnapshotEntry>)
    requires WellKeyed(items)
    ensures SortedEntries(out)
    ensures |out| == |items|
    ensures forall k :: k in items ==> EntryOf(items[k], now) in out
    ensures forall x :: x in out ==> exists k :: k in items && x == EntryOf(items[k], now)
  {
    var rows := [];
    var todo := items.Keys;
    ghost var keys: seq<Key> := [];
    while todo != {}
      invariant todo <= items.Keys
      invariant forall k :: k in keys <==> k in items && k !in todo
      invariant RowsFor(items, now, keys, rows)
      decreases todo
    {
      var k :| k in todo;
      rows := rows + [EntryOf(items[k], now)];
      keys := keys + [k];
      todo := todo - {k};
    }
    AllRows(items, now, keys, rows);
    out := SortRows(rows);
  }

  /** `[items[k] for k in keys]`. */
  function ItemsAt(items: Items, keys: seq<Key>): seq<WatchItem>
    requires forall i :: 0 <= i < |keys| ==> keys[i] in items
  {
    seq(|keys|, i requires 0 <= i < |keys| => items[keys[i]])
  }

  /** Writing back the entries of some keys of a well-keyed map merges exactly
      those entries into the rows. */
  lemma UpsertItemsAt(rows: Items, items: Items, keys: seq<Key>)
    requires WellKeyed(items)
    requires forall i :: 0 <= i < |keys| ==> keys[i] in items
    ensures UpsertAll(rows, ItemsAt(items, keys)) == rows + (map k | k in items && k in keys :: items[k])
  {
    var changed := ItemsAt(items, keys);
    UpsertAllMerge(rows, changed, items);
    KeySetMembers(changed);
    assert forall k :: k in KeySet(changed) <==> k in keys by {
      forall k | k in keys ensures k in KeySet(changed) {
        var j :| 0 <= j < |keys| && keys[j] == k;
        assert KeyOf(changed[j]) == k;
      }
    }
    assert (map k | k in items && k in KeySet(changed) :: items[k]) == (map k | k in items && k in keys :: items[k]);
  }

  /** The pairs `add` reports are exactly its target keys, all present afterwards. */
  lemma AddVisitsTargets(items: Items, targets: seq<string>, symbol: string, now: int,
                         expireAt: Option<int>, source: Option<string>, reason: Option<string>)
    ensures var visited := NewPairs(items.Keys, targets, symbol) + TouchedPairs(items.Keys, targets, symbol);
            (forall k :: k in visited <==> k in TargetKeys(targets, symbol))
            && forall i :: 0 <= i < |visited| ==> visited[i] in AddAll(items, targets, symbol, now, expireAt, source, reason)
  {
    AddReportsEveryVisit(items.Keys, targets, symbol);
    NewPairsExact(items.Keys, targets, symbol);
    TouchedPairsExact(items.Keys, targets, symbol);
    AddAllClosedForm(items, targets, symbol, now, expireAt, source, reason);
  }

  /** The key `touch` works on. */
  function PairKey(exchange: string, symbol: string): Key {
    (NormalizeExchange(exchange), NormalizeSymbol(symbol))
  }

  /** `touch` hands `add` an already normalised pair, which `add` leaves as it is. */
  lemma TouchAsAdd(items: Items, exchange: string, symbol: string, defaults: seq<string>)
    ensures var key := PairKey(exchange, symbol);
            Targets(Some([key.0]), defaults) == [key.0] && NormalizeSymbol(key.1) == key.1
  {
    var key := PairKey(exchange, symbol);
    NormalizedKeyOf(exchange, symbol);
    TargetsOfOne(key.0, defaults);
  }

  lemma TargetsOfOne(exchange: string, defaults: seq<string>)
    requires NormalizeExchange(exchange) == exchange
    ensures Targets(Some([exchange]), defaults) == [exchange]
  {
  }

  lemma AddOneTarget(items: Items, key: Key, now: int, expireAt: Option<int>,
                     source: Option<string>, reason: Option<string>)
    ensures AddAll(items, [key.0], key.1, now, expireAt, source, reason) == AddOne(items, key, now, expireAt, source, reason)
  {
    assert [key.0][..0] == [];
    assert (key.0, key.1) == key;
  }

  lemma NewPairsOne(present: set<Key>, key: Key)
    ensures NewPairs(present, [key.0], key.1) == if key in present then [] else [key]
  {
    assert [key.0][..0] == [];
    assert (key.0, key.1) == key;
  }

  /** Writing back the entries of one key is a single-row update. */
  lemma MergeSingle(rows: Items, items: Items, key: Key)
    requires key in items
    ensures rows + (map k | k in items && k in {key} :: items[k]) == rows[key := items[key]]
  {
    assert (map k | k in items && k in {key} :: items[k]) == map[key := items[key]];
  }

  lemma TargetKeysOne(key: Key)
    ensures TargetKeys([key.0], key.1) == {key}
  {
    var t := [key.0];
    assert (t[0], key.1) == key;
    assert forall x :: x in TargetKeys(t, key.1) ==> x == key;
  }

  /** `add` keeps every key normalised. */
  lemma AddKeepsNormalized(items: Items, exchanges: Option<seq<string>>, defaults: seq<string>, symbol: string,
                           now: int, expireAt: Option<int>, source: Option<string>, reason: Option<string>)
    requires KeysNormalized(items)
    ensures KeysNormalized(AddAll(items, Targets(exchanges, defaults), NormalizeSymbol(symbol), now, expireAt, source, reason))
  {
    var targets := Targets(exchanges, defaults);
    var sym := NormalizeSymbol(symbol);
    TargetsNormalized(exchanges, defaults);
    UpperStripIdempotent(symbol);
    AddAllKeys(items, targets, sym, now, expireAt, source, reason);
    forall k | k in AddAll(items, targets, sym, now, expireAt, source, reason) ensures NormalizedKey(k) {
      if k !in items {
        var i :| 0 <= i < |targets| && (targets[i], sym) == k;
      }
    }
  }

  /** Removing, pruning and resetting keep every key normalised, and loading
      from the store normalises the keys of what it loads. */
  lemma {:induction false} HydrateKeepsNormalized(items: Items, loaded: seq<WatchItem>)
    requires KeysNormalized(items)
    ensures KeysNormalized(Hydrate(items, loaded))
    decreases |loaded|
  {
    if loaded != [] {
      var n := |loaded| - 1;
      HydrateKeepsNormalized(items, loaded[..n]);
      NormalizedKeyOf(loaded[n].exchange, loaded[n].symbol);
    }
  }

  /** Every loaded item ends up under its normalised key. */
  lemma {:induction false} HydrateHas(items: Items, loaded: seq<WatchItem>)
    ensures forall i :: 0 <= i < |loaded| ==> PairKey(loaded[i].exchange, loaded[i].symbol) in Hydrate(items, loaded)
    decreases |loaded|
  {
    if loaded != [] {
      var n := |loaded| - 1;
      HydrateHas(items, loaded[..n]);
      assert forall i :: 0 <= i < n ==> loaded[..n][i] == loaded[i];
    }
  }

  /** What `load_from_store` installs, when the rows are stored under normalised
      keys: the unexpired rows, merged over the current entries. */
  lemma LoadMerges(items: Items, rows: Items, active: seq<WatchItem>, now: int)
    requires forall k :: k in rows ==> NormalizedKey(k)
    requires forall i :: 0 <= i < |active| ==>
               KeyOf(active[i]) in rows && rows[KeyOf(active[i])] == active[i] && !Expired(active[i], now)
    requires forall k :: k in rows && !Expired(rows[k], now) ==> k in KeySet(active)
    ensures Hydrate(items, active) == items + Pruned(rows, now)
  {
    HydrateNormalized(items, active);
    UpsertAllMerge(items, active, rows);
    KeySetMembers(active);
    assert (map k | k in rows && k in KeySet(active) :: rows[k]) == Pruned(rows, now);
  }

  /** Deleting the keys `load_active_items` reports as expired prunes the rows. */
  lemma DeleteExpiredPrunes(rows: Items, expiredKeys: seq<Key>, now: int)
    requires forall i :: 0 <= i < |expiredKeys| ==> expiredKeys[i] in rows && Expired(rows[expiredKeys[i]], now)
    requires forall k :: k in rows && Expired(rows[k], now) ==> k in expiredKeys
    ensures (map k | k in rows && k !in expiredKeys :: rows[k]) == Pruned(rows, now)
    ensures expiredKeys == [] ==> rows == Pruned(rows, now)
  {
  }

  class WatchlistManager {
    const defaultExchanges: seq<string>
    const store: SqliteWatchlistStore?
    var items: Items

    ghost predicate Valid()
      reads this, store
    {
      WellKeyed(items) && (store != null ==> store.Valid())
    }

    /** The store holds exactly the in-memory map. */
    ghost predicate Synced()
      reads this, store
    {
      store != null && store.rows == items
    }

    constructor (defaultExchanges: seq<string>, store: SqliteWatchlistStore?)
      requires store != null ==> store.Valid()
      ensures Valid()
      ensures this.defaultExchanges == defaultExchanges && this.store == store && items == map[]
    {
      this.defaultExchanges := defaultExchanges;
      this.store := store;
      items := map[];
    }

    /** `is_active`. */
    function IsActive(exchange: string, symbol: string, now: int): bool
      reads this
    {
      IsActiveIn(items, exchange, symbol, now)
    }

    /** `active_pairs`: each active key once. */
    method ActivePairs(now: int) returns (pairs: seq<Key>)
      ensures NoDup(pairs)
      ensures forall k :: k in pairs <==> k in ActiveKeys(items, now)
    {
      pairs := [];
      var todo := items.Keys;
      while todo != {}
        invariant todo <= items.Keys
        invariant NoDup(pairs)
        invariant forall k :: k in pairs <==> k in ActiveKeys(items, now) && k !in todo
        decreases todo
      {
        var k :| k in todo;
        if items[k].expireAt.None? || items[k].expireAt.value > now {
          pairs := pairs + [k];
        }
        todo := todo - {k};
      }
    }

    /** `active_symbols`: each symbol with an active pair once. */
    method ActiveSymbols(now: int) returns (symbols: seq<string>)
      ensures NoDup(symbols)
      ensures forall s :: s in symbols <==> s in ActiveSymbolsOf(items, now)
    {
      var found: set<string> := {};
      var todo := items.Keys;
      while todo != {}
        invariant todo <= items.Keys
        invariant found == set k | k in items.Keys - todo && Active(items[k], now) :: k.1
        decreases todo
      {
        var k :| k in todo;
        if items[k].expireAt.None? || items[k].expireAt.value > now {
          found := found + {k.1};
        }
        todo := todo - {k};
      }
      symbols := [];
      var rest := found;
      while rest != {}
        invariant rest <= found
        invariant NoDup(symbols)
        invariant forall s :: s in symbols <==> s in found && s !in rest
        decreases rest
      {
        var s :| s in rest;
        symbols := symbols + [s];
        rest := rest - {s};
      }
    }

    /** `add`: every target exchange of `exchanges or default_exchanges` gets an
        entry for the normalised symbol, fresh when absent and touched when
        present; the changed entries are then written to the store. */
    method Add(symbol: string, exchanges: Option<seq<string>>, ttl: Option<int>,
               source: Option<string>, reason: Option<string>, now: int, storeOk: bool)
      returns (newPairs: seq<Key>, touchedPairs: seq<Key>)
      requires Valid()
      modifies this, store
      ensures Valid()
      ensures var targets := Targets(exchanges, defaultExchanges);
              var sym := NormalizeSymbol(symbol);
              items == AddAll(old(items), targets, sym, now, ExpireAt(now, ttl), source, reason)
              && newPairs == NewPairs(old(items).Keys, targets, sym)
              && touchedPairs == TouchedPairs(old(items).Keys, targets, sym)
              && (store != null ==>
                    store.rows == if storeOk
                                  then old(store.rows) + (map k | k in items && k in TargetKeys(targets, sym) :: items[k])
                                  else old(store.rows))
      ensures old(Synced()) && storeOk ==> Synced()
    {
      newPairs, touchedPairs := AddTargets(Targets(exchanges, defaultExchanges), NormalizeSymbol(symbol),
                                           ExpireAt(now, ttl), source, reason, now, storeOk);
    }

    /** The body of `add` once the symbol and the exchanges are normalised. */
    method AddTargets(targets: seq<string>, sym: string, expireAt: Option<int>,
                      source: Option<string>, reason: Option<string>, now: int, storeOk: bool)
      returns (newPairs: seq<Key>, touchedPairs: seq<Key>)
      requires Valid()
      modifies this, store
      ensures Valid()
      ensures items == AddAll(old(items), targets, sym, now, expireAt, source, reason)
      ensures newPairs == NewPairs(old(items).Keys, targets, sym)
      ensures touchedPairs == TouchedPairs(old(items).Keys, targets, sym)
      ensures store != null ==>
                store.rows == if storeOk
                              then old(store.rows) + (map k | k in items && k in TargetKeys(targets, sym) :: items[k])
                              else old(store.rows)
      ensures old(Synced()) && storeOk ==> Synced()
    {
      newPairs, touchedPairs := AddEntries(targets, sym, expireAt, source, reason, now);
      var visited := newPairs + touchedPairs;
      AddVisitsTargets(old(items), targets, sym, now, expireAt, source, reason);
      if store != null {
        WriteBack(visited, storeOk);
        assert (map k | k in items && k in visited :: items[k])
               == (map k | k in items && k in TargetKeys(targets, sym) :: items[k]);
        AddThenUpsert(old(items), targets, sym, now, expireAt, source, reason);
      }
    }

    /** The loop of `add`, under the lock. */
    method AddEntries(targets: seq<string>, sym: string, expireAt: Option<int>,
                      source: Option<string>, reason: Option<string>, now: int)
      returns (newPairs: seq<Key>, touchedPairs: seq<Key>)
      requires Valid()
      modifies this
      ensures Valid()
      ensures items == AddAll(old(items), targets, sym, now, expireAt, source, reason)
      ensures newPairs == NewPairs(old(items).Keys, targets, sym)
      ensures touchedPairs == TouchedPairs(old(items).Keys, targets, sym)
    {
      newPairs := [];
      touchedPairs := [];
      var i := 0;
      while i < |targets|
        invariant 0 <= i <= |targets|
        invariant items == AddAll(old(items), targets[..i], sym, now, expireAt, source, reason)
        invariant newPairs == NewPairs(old(items).Keys, targets[..i], sym)
        invariant touchedPairs == TouchedPairs(old(items).Keys, targets[..i], sym)
      {
        var key := (targets[i], sym);
        assert targets[..i + 1][..i] == targets[..i];
        AddAllKeys(old(items), targets[..i], sym, now, expireAt, source, reason);
        if key in items {
          items := items[key := Touched(items[key], now, expireAt)];
          touchedPairs := touchedPairs + [key];
        } else {
          items := items[key := Fresh(key, now, expireAt, source, reason)];
          newPairs := newPairs + [key];
        }
        i := i + 1;
      }
      assert targets[..i] == targets;
      AddAllWellKeyed(old(items), targets, sym, now, expireAt, source, reason);
    }

    /** `changed = [items[k] for k in keys]` followed by `upsert_items(changed)`;
        a failing upsert is logged and leaves the rows as they were. */
    method WriteBack(keys: seq<Key>, storeOk: bool)
      requires Valid() && store != null
      requires forall i :: 0 <= i < |keys| ==> keys[i] in items
      modifies store
      ensures Valid()
      ensures store.rows == if storeOk then old(store.rows) + (map k | k in items && k in keys :: items[k])
                            else old(store.rows)
    {
      if storeOk {
        UpsertItemsAt(store.rows, items, keys);
        store.UpsertItems(ItemsAt(items, keys));
      }
    }

    /** `touch`: renew or create the one normalised pair with expiry `now + ttl`;
        the result says whether the pair existed. */
    method Touch(exchange: string, symbol: string, ttl: int, source: Option<string>, reason: Option<string>,
                 now: int, storeOk: bool)
      returns (existed: bool)
      requires Valid()
      modifies this, store
      ensures Valid()
      ensures var key := PairKey(exchange, symbol);
              && (existed <==> key in old(items))
              && items == AddOne(old(items), key, now, Some(now + ttl), source, reason)
              && (store != null ==> store.rows == if storeOk then old(store.rows)[key := items[key]] else old(store.rows))
      ensures old(Synced()) && storeOk ==> Synced()
    {
      var key := PairKey(exchange, symbol);
      var expireAt := now + ttl;
      existed := TouchPair(key, expireAt, source, reason, now, storeOk);
    }

    /** The body of `touch`: `add` of one normalised pair. Normalising the pair
        again, as `add` does, leaves it unchanged (`TouchAsAdd`). */
    method TouchPair(key: Key, expireAt: int, source: Option<string>, reason: Option<string>,
                     now: int, storeOk: bool)
      returns (existed: bool)
      requires Valid()
      modifies this, store
      ensures Valid()
      ensures existed <==> key in old(items)
      ensures items == AddOne(old(items), key, now, Some(expireAt), source, reason)
      ensures store != null ==> store.rows == if storeOk then old(store.rows)[key := items[key]] else old(store.rows)
      ensures old(Synced()) && storeOk ==> Synced()
    {
      AddOneTarget(items, key, now, Some(expireAt), source, reason);
      NewPairsOne(items.Keys, key);
      TargetKeysOne(key);
      var newPairs, _ := AddTargets([key.0], key.1, Some(expireAt), source, reason, now, storeOk);
      existed := |newPairs| == 0;
      if store != null && storeOk {
        MergeSingle(old(store.rows), items, key);
      }
    }

    /** `remove`: drop the normalised symbol on every target exchange; the result
        lists the pairs that were present. The store is asked to delete them only
        when there are some. */
    method Remove(symbol: string, exchanges: Option<seq<string>>, storeOk: bool) returns (removed: seq<Key>)
      requires Valid()
      modifies this, store
      ensures Valid()
      ensures var targets := Targets(exchanges, defaultExchanges);
              var sym := NormalizeSymbol(symbol);
              && items == RemoveAll(old(items), targets, sym)
              && removed == RemovedPairs(old(items), targets, sym)
              && (store != null ==>
                    store.rows == if storeOk && removed != []
                                  then map k | k in old(store.rows) && k !in removed :: old(store.rows)[k]
                                  else old(store.rows))
      ensures old(Synced()) && storeOk ==> Synced()
    {
      removed := RemoveTargets(Targets(exchanges, defaultExchanges), NormalizeSymbol(symbol), storeOk);
    }

    /** The body of `remove` once the symbol and the exchanges are normalised. */
    method RemoveTargets(targets: seq<string>, sym: string, storeOk: bool) returns (removed: seq<Key>)
      requires Valid()
      modifies this, store
      ensures Valid()
      ensures items == RemoveAll(old(items), targets, sym)
      ensures removed == RemovedPairs(old(items), targets, sym)
      ensures store != null ==>
                store.rows == if storeOk && removed != []
                              then map k | k in old(store.rows) && k !in removed :: old(store.rows)[k]
                              else old(store.rows)
      ensures old(Synced()) && storeOk ==> Synced()
    {
      removed := [];
      var i := 0;
      while i < |targets|
        invariant 0 <= i <= |targets|
        invariant items == RemoveAll(old(items), targets[..i], sym)
        invariant removed == RemovedPairs(old(items), targets[..i], sym)
        invariant store != null ==> store.rows == old(store.rows)
        invariant Valid()
      {
        var key := (targets[i], sym);
        assert targets[..i + 1][..i] == targets[..i];
        if key in items {
          items := items - {key};
          removed := removed + [key];
        }
        i := i + 1;
      }
      assert targets[..i] == targets;
      RemoveAllClosedForm(old(items), targets, sym);
      if store != null {
        DeleteFromStore(removed, storeOk);
      }
    }

    /** `if keys and store is not None: delete_keys(keys)`; a failing delete is
        logged and leaves the rows as they were. */
    method DeleteFromStore(keys: seq<Key>, storeOk: bool)
      requires Valid() && store != null
      modifies store
      ensures Valid()
      ensures store.rows == if storeOk && keys != [] then map k | k in old(store.rows) && k !in keys :: old(store.rows)[k]
                            else old(store.rows)
    {
      if storeOk && keys != [] {
        store.DeleteKeys(keys);
      }
    }

    /** `prune_expired`: drop every entry whose expiry is at or before `now`; the
        result lists each dropped key once. */
    method PruneExpired(now: int, storeOk: bool) returns (removed: seq<Key>)
      requires Valid()
      modifies this, store
      ensures Valid()
      ensures items == Pruned(old(items), now)
      ensures NoDup(removed) && forall k :: k in removed <==> k in ExpiredKeys(old(items), now)
      ensures store != null ==>
                store.rows == if storeOk && removed != []
                              then map k | k in old(store.rows) && k !in removed :: old(store.rows)[k]
                              else old(store.rows)
      ensures old(Synced()) && storeOk ==> Synced()
    {
      removed := [];
      var snapshot := items;
      var todo := snapshot.Keys;
      while todo != {}
        invariant todo <= snapshot.Keys
        invariant items == map k | k in snapshot && (k in todo || !Expired(snapshot[k], now)) :: snapshot[k]
        invariant NoDup(removed)
        invariant forall k :: k in removed <==> k in snapshot && k !in todo && Expired(snapshot[k], now)
        invariant store != null ==> store.rows == old(store.rows)
        decreases todo
      {
        var k :| k in todo;
        var item := snapshot[k];
        if item.expireAt.Some? && item.expireAt.value <= now {
          items := items - {k};
          removed := removed + [k];
        }
        todo := todo - {k};
      }
      if store != null {
        DeleteFromStore(removed, storeOk);
      }
    }

    /** `reset_all_ttl`: every entry gets the expiry `now + ttl` (permanent when
        `ttl` is `None`) and `updated_at == now`; all entries are written back and
        their number is returned. */
    method ResetAllTtl(ttl: Option<int>, now: int, storeOk: bool) returns (count: int)
      requires Valid()
      modifies this, store
      ensures Valid()
      ensures items == ResetAll(old(items), now, ExpireAt(now, ttl))
      ensures count == |old(items)|
      ensures store != null ==> store.rows == if storeOk then old(store.rows) + items else old(store.rows)
      ensures old(Synced()) && storeOk ==> Synced()
    {
      var expireAt := ExpireAt(now, ttl);
      var keys := ResetEntries(now, expireAt);
      DistinctCard(keys);
      assert (set k | k in keys) == old(items).Keys;
      count := |keys|;
      if store != null {
        WriteBack(keys, storeOk);
        assert (map k | k in items && k in keys :: items[k]) == items;
      }
    }

    /** The loop of `reset_all_ttl`: every entry is rewritten once, and the keys
        visited are returned. */
    method ResetEntries(now: int, expireAt: Option<int>) returns (keys: seq<Key>)
      requires WellKeyed(items)
      modifies this
      ensures WellKeyed(items)
      ensures items == ResetAll(old(items), now, expireAt)
      ensures NoDup(keys) && forall k :: k in keys <==> k in old(items)
    {
      var snapshot := items;
      var todo := snapshot.Keys;
      keys := [];
      while todo != {}
        invariant todo <= snapshot.Keys
        invariant items == map k | k in snapshot :: if k in todo then snapshot[k]
                                                    else snapshot[k].(updatedAt := now, expireAt := expireAt)
        invariant NoDup(keys) && forall k :: k in keys <==> k in snapshot && k !in todo
        decreases todo
      {
        var k :| k in todo;
        items := items[k := items[k].(updatedAt := now, expireAt := expireAt)];
        keys := keys + [k];
        todo := todo - {k};
      }
    }

    /** The loop of `load_from_store`: each loaded item is installed, in order,
        under its normalised key. */
    method HydrateEntries(active: seq<WatchItem>)
      requires WellKeyed(items)
      modifies this
      ensures WellKeyed(items)
      ensures items == Hydrate(old(items), active)
    {
      var i := 0;
      while i < |active|
        invariant 0 <= i <= |active|
        invariant items == Hydrate(old(items), active[..i])
      {
        assert active[..i + 1][..i] == active[..i];
        var item := Normalized(active[i]);
        items := items[KeyOf(item) := item];
        i := i + 1;
      }
      assert active[..i] == active;
      HydrateWellKeyed(old(items), active);
    }

    /** `load_from_store`: the unexpired rows are installed under their
        normalised keys and the expired rows are deleted from the store.
        `loadOk` is false when `load_active_items` raises (the read or a row
        conversion); the exception then leaves before anything is installed or
        deleted. */
    method LoadFromStore(now: int, loadOk: bool, storeOk: bool)
      requires Valid()
      modifies this, store
      ensures Valid()
      ensures store == null ==> items == old(items)
      ensures store != null && !loadOk ==> items == old(items) && store.rows == old(store.rows)
      ensures store != null && loadOk ==>
              store.rows == if storeOk then Pruned(old(store.rows), now) else old(store.rows)
      ensures store != null && loadOk && (forall k :: k in old(store.rows) ==> NormalizedKey(k))
              ==> items == old(items) + Pruned(old(store.rows), now)
      ensures store != null && loadOk ==>
              forall k :: k in old(store.rows) && !Expired(old(store.rows)[k], now) ==> PairKey(k.0, k.1) in items
    {
      if store == null || !loadOk {
        return;
      }
      var active, expiredKeys := store.LoadActiveItems(now);
      HydrateEntries(active);
      HydrateHas(old(items), active);
      KeySetMembers(active);
      forall k | k in store.rows && !Expired(store.rows[k], now) ensures PairKey(k.0, k.1) in items {
        var j :| 0 <= j < |active| && KeyOf(active[j]) == k;
      }
      DeleteExpiredPrunes(store.rows, expiredKeys, now);
      if forall k :: k in store.rows ==> NormalizedKey(k) {
        LoadMerges(old(items), store.rows, active, now);
      }
      if storeOk && expiredKeys != [] {
        store.DeleteKeys(expiredKeys);
      }
    }

    /** `snapshot`. */
    method Snapshot(now: int) returns (out: seq<SnapshotEntry>)
      requires Valid()
      ensures SortedEntries(out)
      ensures |out| == |items|
      ensures forall k :: k in items ==> EntryOf(items[k], now) in out
      ensures forall x :: x in out ==> exists k :: k in items && x == EntryOf(items[k], now)
    {
      out := SnapshotRows(items, now);
    }
  }
}
