/** `SqliteWatchlistStore` as an abstract table: rows keyed by their primary key
    `(exchange, symbol)`. An upsert replaces the whole row of its key, a delete
    removes the rows of the given keys, and loading splits the rows into the
    active items and the keys of the expired ones. The database file, the
    connection and the SQL text are not modelled; the order in which `SELECT`
    returns rows is left unspecified. */
module WatchlistStorage {
  import opened Options
  import opened Watchlist

  /** The keys of a list of items. */
  function KeySet(items: seq<WatchItem>): set<Key>
    decreases |items|
  {
    if items == [] then {} else KeySet(items[..|items| - 1]) + {KeyOf(items[|items| - 1])}
  }

  /** A key is in `KeySet(items)` exactly when some item has it. */
  lemma {:induction false} KeySetMembers(items: seq<WatchItem>)
    ensures forall i :: 0 <= i < |items| ==> KeyOf(items[i]) in KeySet(items)
    ensures forall k :: k in KeySet(items) ==> exists i :: 0 <= i < |items| && KeyOf(items[i]) == k
    decreases |items|
  {
    if items != [] {
      var n := |items| - 1;
      var init := items[..n];
      KeySetMembers(init);
      assert forall i :: 0 <= i < n ==> init[i] == items[i];
    }
  }

  /** `upsert_items`: each item in turn replaces the row with its key. */
  function UpsertAll(rows: Items, items: seq<WatchItem>): Items
    decreases |items|
  {
    if items == [] then rows
    else
      var n := |items| - 1;
      UpsertAll(rows, items[..n])[KeyOf(items[n]) := items[n]]
  }

  /** An upsert keeps every row's key and adds the keys written. */
  lemma {:induction false} UpsertKeys(rows: Items, items: seq<WatchItem>)
    ensures UpsertAll(rows, items).Keys == rows.Keys + KeySet(items)
    decreases |items|
  {
    if items != [] {
      var n := |items| - 1;
      var init := items[..n];
      UpsertKeys(rows, init);
    }
  }

  /** Last write wins: after an upsert, a key holds the last item written for it. */
  lemma {:induction false} UpsertLastWins(rows: Items, items: seq<WatchItem>, j: nat)
    requires j < |items|
    requires forall m :: j < m < |items| ==> KeyOf(items[m]) != KeyOf(items[j])
    ensures KeyOf(items[j]) in UpsertAll(rows, items) && UpsertAll(rows, items)[KeyOf(items[j])] == items[j]
    decreases |items|
  {
    var n := |items| - 1;
    if j < n {
      var init := items[..n];
      assert init[j] == items[j];
      assert forall m :: j < m < n ==> init[m] == items[m];
      UpsertLastWins(rows, init, j);
    }
  }

  /** A key not written keeps its row. */
  lemma {:induction false} UpsertUntouched(rows: Items, items: seq<WatchItem>)
    ensures forall k :: k in rows && k !in KeySet(items) ==> k in UpsertAll(rows, items) && UpsertAll(rows, items)[k] == rows[k]
    decreases |items|
  {
    if items != [] {
      var n := |items| - 1;
      var init := items[..n];
      UpsertUntouched(rows, init);
      UpsertKeys(rows, init);
    }
  }

  /** An upsert of items that agree with a map `m` merges those entries of `m` into
      the rows, whatever the order of the items. */
  lemma {:induction false} UpsertAllMerge(rows: Items, items: seq<WatchItem>, m: Items)
    requires forall i :: 0 <= i < |items| ==> KeyOf(items[i]) in m && m[KeyOf(items[i])] == items[i]
    ensures UpsertAll(rows, items) == rows + (map k | k in m && k in KeySet(items) :: m[k])
    decreases |items|
  {
    if items != [] {
      var n := |items| - 1;
      var init := items[..n];
      assert forall i :: 0 <= i < n ==> init[i] == items[i];
      UpsertAllMerge(rows, init, m);
    }
  }

  class SqliteWatchlistStore {
    /** The `watchlist` table. */
    var rows: Items

    /** The primary key of every row is its own `(exchange, symbol)`. */
    ghost predicate Valid()
      reads this
    {
      forall k :: k in rows ==> KeyOf(rows[k]) == k
    }

    /** A store over an existing database whose table holds `initial`. */
    constructor (initial: Items)
      requires forall k :: k in initial ==> KeyOf(initial[k]) == k
      ensures Valid() && rows == initial
    {
      rows := initial;
    }

    /** `load_active_items`: every row lands in exactly one of the two results, an
        active item when it has no expiry or expires after `now`, its key in
        `expiredKeys` otherwise. */
    method LoadActiveItems(now: int) returns (active: seq<WatchItem>, expiredKeys: seq<Key>)
      requires Valid()
      ensures forall i :: 0 <= i < |active| ==>
                KeyOf(active[i]) in rows && rows[KeyOf(active[i])] == active[i] && !Expired(active[i], now)
      ensures forall k :: k in rows && !Expired(rows[k], now) ==> k in KeySet(active)
      ensures forall i :: 0 <= i < |expiredKeys| ==> expiredKeys[i] in rows && Expired(rows[expiredKeys[i]], now)
      ensures forall k :: k in rows && Expired(rows[k], now) ==> k in expiredKeys
      ensures forall i, j :: 0 <= i < j < |active| ==> KeyOf(active[i]) != KeyOf(active[j])
      ensures NoDup(expiredKeys)
    {
      active := [];
      expiredKeys := [];
      var todo := rows.Keys;
      while todo != {}
        invariant todo <= rows.Keys
        invariant forall i :: 0 <= i < |active| ==>
                    KeyOf(active[i]) in rows.Keys - todo && rows[KeyOf(active[i])] == active[i]
                    && !Expired(active[i], now)
        invariant forall k :: k in rows.Keys - todo && !Expired(rows[k], now) ==> k in KeySet(active)
        invariant forall i :: 0 <= i < |expiredKeys| ==>
                    expiredKeys[i] in rows.Keys - todo && Expired(rows[expiredKeys[i]], now)
        invariant forall k :: k in rows.Keys - todo && Expired(rows[k], now) ==> k in expiredKeys
        invariant forall i, j :: 0 <= i < j < |active| ==> KeyOf(active[i]) != KeyOf(active[j])
        invariant NoDup(expiredKeys)
        decreases todo
      {
        var k :| k in todo;
        var row := rows[k];
        if row.expireAt.Some? && row.expireAt.value <= now {
          expiredKeys := expiredKeys + [k];
        } else {
          ghost var before := active;
          active := active + [row];
          assert active[..|active| - 1] == before;
        }
        todo := todo - {k};
      }
    }

    /** `upsert_items` in one transaction: it happens entirely. */
    method UpsertItems(items: seq<WatchItem>)
      requires Valid()
      modifies this
      ensures Valid()
      ensures rows == UpsertAll(old(rows), items)
    {
      var i := 0;
      while i < |items|
        invariant 0 <= i <= |items|
        invariant rows == UpsertAll(old(rows), items[..i])
        invariant Valid()
      {
        assert items[..i + 1][..i] == items[..i];
        rows := rows[KeyOf(items[i]) := items[i]];
        i := i + 1;
      }
      assert items[..i] == items;
    }

    /** `delete_keys`: the rows of the given keys are removed. */
    method DeleteKeys(keys: seq<Key>)
      requires Valid()
      modifies this
      ensures Valid()
      ensures rows == map k | k in old(rows) && k !in keys :: old(rows)[k]
    {
      var i := 0;
      while i < |keys|
        invariant 0 <= i <= |keys|
        invariant rows == map k | k in old(rows) && k !in keys[..i] :: old(rows)[k]
      {
        assert forall k :: k in keys[..i + 1] <==> k in keys[..i] || k == keys[i];
        rows := rows - {keys[i]};
        i := i + 1;
      }
      assert keys[..i] == keys;
    }
  }
}
