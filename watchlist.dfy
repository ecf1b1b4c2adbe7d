/** The watchlist's values and the meaning of its operations: `WatchItem`, the
    activity predicate, key normalisation, and, as functions on the item map,
    what `add`, `remove`, `prune_expired` and `reset_all_ttl` do to it. The
    classes that hold the map and perform these changes step by step are in
    `watchlist_manager.dfy`. Time is an integer number of seconds. */
module Watchlist {
  import opened Options
  import opened Text

  /** `(exchange, symbol)`, both normalised. */
  type Key = (string, string)

  /** One watched pair; `expireAt == None` means permanent. */
  datatype WatchItem = WatchItem(
    exchange: string,
    symbol: string,
    createdAt: int,
    updatedAt: int,
    expireAt: Option<int>,
    source: Option<string>,
    reason: Option<string>)

  type Items = map<Key, WatchItem>

  predicate NoDup<T(==)>(s: seq<T>) {
    forall i, j :: 0 <= i < j < |s| ==> s[i] != s[j]
  }

  /** A list without repeats has as many elements as its set of elements. */
  lemma {:induction false} DistinctCard<T>(s: seq<T>)
    requires NoDup(s)
    ensures |set x | x in s| == |s|
    decreases |s|
  {
    if s != [] {
      var n := |s| - 1;
      var init := s[..n];
      assert NoDup(init) by {
        forall i, j | 0 <= i < j < n ensures init[i] != init[j] {
          assert init[i] == s[i] && init[j] == s[j];
        }
      }
      DistinctCard(init);
      assert (set x | x in s) == (set x | x in init) + {s[n]} by {
        assert s == init + [s[n]];
      }
      assert s[n] !in init;
    }
  }

  function KeyOf(item: WatchItem): Key {
    (item.exchange, item.symbol)
  }

  /** The one activity test every projection uses. */
  predicate Active(item: WatchItem, now: int) {
    item.expireAt.None? || item.expireAt.value > now
  }

  /** The test `prune_expired` and `load_active_items` use to drop an entry. */
  predicate Expired(item: WatchItem, now: int) {
    item.expireAt.Some? && item.expireAt.value <= now
  }

  /** `WatchItem.ttl_seconds`: the seconds left, never negative, `None` when permanent. */
  function TtlSeconds(item: WatchItem, now: int): (r: Option<int>)
    ensures r.None? <==> item.expireAt.None?
    ensures r.Some? ==> r.value >= 0 && (r.value > 0 <==> Active(item, now))
    ensures r.Some? && Active(item, now) ==> item.expireAt.value == now + r.value
  {
    if item.expireAt.None? then None
    else if item.expireAt.value - now > 0 then Some(item.expireAt.value - now)
    else Some(0)
  }

  /** `_normalize_exchange`. */
  function NormalizeExchange(exchange: string): string {
    Lower(Strip(exchange))
  }

  /** `_normalize_symbol`. */
  function NormalizeSymbol(symbol: string): string {
    Upper(Strip(symbol))
  }

  predicate NormalizedKey(k: Key) {
    NormalizeExchange(k.0) == k.0 && NormalizeSymbol(k.1) == k.1
  }

  /** Normalising twice is normalising once, so every key the manager builds is normalised. */
  lemma NormalizedKeyOf(exchange: string, symbol: string)
    ensures NormalizedKey((NormalizeExchange(exchange), NormalizeSymbol(symbol)))
  {
    LowerStripIdempotent(exchange);
    UpperStripIdempotent(symbol);
  }

  /** `None if ttl is None else now + ttl`. */
  function ExpireAt(now: int, ttl: Option<int>): Option<int> {
    if ttl.None? then None else Some(now + ttl.value)
  }

  /** The normalised target exchanges: `exchanges or default_exchanges`, so that
      both `None` and the empty list fall back to the defaults. */
  function Targets(exchanges: Option<seq<string>>, defaults: seq<string>): (r: seq<string>)
    ensures exchanges.Some? && exchanges.value != [] ==> |r| == |exchanges.value|
    ensures exchanges.None? || exchanges.value == [] ==> |r| == |defaults|
  {
    var raw := if exchanges.Some? && exchanges.value != [] then exchanges.value else defaults;
    seq(|raw|, i requires 0 <= i < |raw| => NormalizeExchange(raw[i]))
  }

  /** Each target is the normalised form of the requested (or default) exchange
      at its position, and is therefore its own normal form. */
  lemma TargetsNormalized(exchanges: Option<seq<string>>, defaults: seq<string>)
    ensures var raw := if exchanges.Some? && exchanges.value != [] then exchanges.value else defaults;
            forall i :: 0 <= i < |raw| ==> Targets(exchanges, defaults)[i] == NormalizeExchange(raw[i])
    ensures forall i :: 0 <= i < |Targets(exchanges, defaults)| ==>
              NormalizeExchange(Targets(exchanges, defaults)[i]) == Targets(exchanges, defaults)[i]
  {
    var raw := if exchanges.Some? && exchanges.value != [] then exchanges.value else defaults;
    forall i | 0 <= i < |raw| ensures NormalizeExchange(NormalizeExchange(raw[i])) == NormalizeExchange(raw[i]) {
      LowerStripIdempotent(raw[i]);
    }
  }

  /** The keys `(exchange, symbol)` of a target list. */
  function TargetKeys(targets: seq<string>, symbol: string): set<Key> {
    set i | 0 <= i < |targets| :: (targets[i], symbol)
  }

  lemma TargetKeysSnoc(targets: seq<string>, symbol: string)
    requires |targets| > 0
    ensures TargetKeys(targets, symbol)
            == TargetKeys(targets[..|targets| - 1], symbol) + {(targets[|targets| - 1], symbol)}
  {
    var init := targets[..|targets| - 1];
    assert forall i :: 0 <= i < |init| ==> init[i] == targets[i];
  }

  // ---------------------------------------------------------------------------
  // add
  // ---------------------------------------------------------------------------

  /** The entry `add` creates for an absent key. */
  function Fresh(key: Key, now: int, expireAt: Option<int>, source: Option<string>, reason: Option<string>): WatchItem {
    WatchItem(key.0, key.1, now, now, expireAt, source, reason)
  }

  /** What `add` does to an existing entry: `updated_at` becomes `now`, and
      permanence is sticky — if either the stored or the requested expiry is
      `None` the entry becomes permanent, otherwise it takes the new expiry. */
  function Touched(item: WatchItem, now: int, expireAt: Option<int>): WatchItem {
    item.(updatedAt := now,
          expireAt := if item.expireAt.None? || expireAt.None? then None else expireAt)
  }

  /** One iteration of `add`'s loop. */
  function AddOne(items: Items, key: Key, now: int, expireAt: Option<int>,
                  source: Option<string>, reason: Option<string>): Items
  {
    if key in items then items[key := Touched(items[key], now, expireAt)]
    else items[key := Fresh(key, now, expireAt, source, reason)]
  }

  /** The item map after `add` has visited every target exchange in order. */
  function AddAll(items: Items, targets: seq<string>, symbol: string, now: int, expireAt: Option<int>,
                  source: Option<string>, reason: Option<string>): Items
    decreases |targets|
  {
    if targets == [] then items
    else
      var n := |targets| - 1;
      AddOne(AddAll(items, targets[..n], symbol, now, expireAt, source, reason),
             (targets[n], symbol), now, expireAt, source, reason)
  }

  /** `new_pairs`: target keys absent when their iteration came. */
  function NewPairs(present: set<Key>, targets: seq<string>, symbol: string): seq<Key>
    decreases |targets|
  {
    if targets == [] then []
    else
      var n := |targets| - 1;
      var key := (targets[n], symbol);
      var before := NewPairs(present, targets[..n], symbol);
      if key in present || key in TargetKeys(targets[..n], symbol) then before else before + [key]
  }

  /** `touched_pairs`: target keys present when their iteration came. */
  function TouchedPairs(present: set<Key>, targets: seq<string>, symbol: string): seq<Key>
    decreases |targets|
  {
    if targets == [] then []
    else
      var n := |targets| - 1;
      var key := (targets[n], symbol);
      var before := TouchedPairs(present, targets[..n], symbol);
      if key in present || key in TargetKeys(targets[..n], symbol) then before + [key] else before
  }

  lemma TouchedIdempotent(item: WatchItem, now: int, expireAt: Option<int>)
    ensures Touched(Touched(item, now, expireAt), now, expireAt) == Touched(item, now, expireAt)
  {
  }

  /** The closed form of `add`: target keys that were present are touched, target
      keys that were absent hold a fresh entry, every other entry is unchanged. */
  lemma {:induction false} AddAllClosedForm(items: Items, targets: seq<string>, symbol: string, now: int,
                                            expireAt: Option<int>, source: Option<string>, reason: Option<string>)
    ensures AddAll(items, targets, symbol, now, expireAt, source, reason).Keys
            == items.Keys + TargetKeys(targets, symbol)
    ensures forall k :: k in TargetKeys(targets, symbol) ==>
              AddAll(items, targets, symbol, now, expireAt, source, reason)[k]
              == if k in items then Touched(items[k], now, expireAt) else Fresh(k, now, expireAt, source, reason)
    ensures forall k :: k in items && k !in TargetKeys(targets, symbol) ==>
              AddAll(items, targets, symbol, now, expireAt, source, reason)[k] == items[k]
    decreases |targets|
  {
    if targets != [] {
      var n := |targets| - 1;
      var init := targets[..n];
      AddAllClosedForm(items, init, symbol, now, expireAt, source, reason);
      TargetKeysSnoc(targets, symbol);
      var key := (targets[n], symbol);
      var prior := AddAll(items, init, symbol, now, expireAt, source, reason);
      var r := AddOne(prior, key, now, expireAt, source, reason);
      assert r == AddAll(items, targets, symbol, now, expireAt, source, reason);
      if key in TargetKeys(init, symbol) {
        if key in items {
          TouchedIdempotent(items[key], now, expireAt);
        } else {
          TouchedFresh(key, now, expireAt, source, reason);
        }
      }
      forall k | k in TargetKeys(targets, symbol)
        ensures r[k] == if k in items then Touched(items[k], now, expireAt) else Fresh(k, now, expireAt, source, reason)
      {
        if k != key {
          assert k in TargetKeys(init, symbol);
        }
      }
    }
  }

  /** The keys after `add`: the old keys and every target key. */
  lemma AddAllKeys(items: Items, targets: seq<string>, symbol: string, now: int,
                   expireAt: Option<int>, source: Option<string>, reason: Option<string>)
    ensures AddAll(items, targets, symbol, now, expireAt, source, reason).Keys
            == items.Keys + TargetKeys(targets, symbol)
  {
    AddAllClosedForm(items, targets, symbol, now, expireAt, source, reason);
  }

  lemma TouchedFresh(key: Key, now: int, expireAt: Option<int>, source: Option<string>, reason: Option<string>)
    ensures Touched(Fresh(key, now, expireAt, source, reason), now, expireAt) == Fresh(key, now, expireAt, source, reason)
  {
  }

  /** Every target key is reported exactly once per visit: `new_pairs` and
      `touched_pairs` together have one entry per target exchange. */
  lemma {:induction false} AddReportsEveryVisit(present: set<Key>, targets: seq<string>, symbol: string)
    ensures |NewPairs(present, targets, symbol)| + |TouchedPairs(present, targets, symbol)| == |targets|
    ensures forall k :: k in NewPairs(present, targets, symbol) ==> k in TargetKeys(targets, symbol)
    ensures forall k :: k in TouchedPairs(present, targets, symbol) ==> k in TargetKeys(targets, symbol)
    decreases |targets|
  {
    if targets != [] {
      AddReportsEveryVisit(present, targets[..|targets| - 1], symbol);
      TargetKeysSnoc(targets, symbol);
    }
  }

  /** `new_pairs` lists, once each, exactly the target keys that were absent. */
  lemma {:induction false} NewPairsExact(present: set<Key>, targets: seq<string>, symbol: string)
    ensures NoDup(NewPairs(present, targets, symbol))
    ensures forall k :: k in NewPairs(present, targets, symbol) <==> k in TargetKeys(targets, symbol) && k !in present
    decreases |targets|
  {
    if targets != [] {
      var n := |targets| - 1;
      NewPairsExact(present, targets[..n], symbol);
      AddReportsEveryVisit(present, targets[..n], symbol);
      TargetKeysSnoc(targets, symbol);
    }
  }

  /** `touched_pairs` lists every target key that was present; when the target
      exchanges are distinct it lists nothing else, so each key lands in exactly
      one of the two lists. */
  lemma {:induction false} TouchedPairsExact(present: set<Key>, targets: seq<string>, symbol: string)
    ensures forall k :: k in TargetKeys(targets, symbol) && k in present ==> k in TouchedPairs(present, targets, symbol)
    ensures NoDup(targets) ==>
              forall k :: k in TouchedPairs(present, targets, symbol) <==> k in TargetKeys(targets, symbol) && k in present
    decreases |targets|
  {
    if targets != [] {
      var n := |targets| - 1;
      var init := targets[..n];
      TouchedPairsExact(present, init, symbol);
      AddReportsEveryVisit(present, init, symbol);
      TargetKeysSnoc(targets, symbol);
      if NoDup(targets) {
        assert NoDup(init) by {
          forall i, j | 0 <= i < j < |init| ensures init[i] != init[j] {
            assert init[i] == targets[i] && init[j] == targets[j];
          }
        }
        assert (targets[n], symbol) !in TargetKeys(init, symbol) by {
          forall i | 0 <= i < |init| ensures init[i] != targets[n] {
            assert init[i] == targets[i];
          }
        }
      }
    }
  }

  // ---------------------------------------------------------------------------
  // remove
  // ---------------------------------------------------------------------------

  /** The item map after `remove` has visited every target exchange. */
  function RemoveAll(items: Items, targets: seq<string>, symbol: string): Items
    decreases |targets|
  {
    if targets == [] then items
    else
      var n := |targets| - 1;
      RemoveAll(items, targets[..n], symbol) - {(targets[n], symbol)}
  }

  /** The keys `remove` reports: each target key present when its iteration came. */
  function RemovedPairs(items: Items, targets: seq<string>, symbol: string): seq<Key>
    decreases |targets|
  {
    if targets == [] then []
    else
      var n := |targets| - 1;
      var key := (targets[n], symbol);
      var before := RemovedPairs(items, targets[..n], symbol);
      if key in RemoveAll(items, targets[..n], symbol) then before + [key] else before
  }

  /** `remove` deletes exactly the target keys, keeps every other entry as it was,
      and reports each deleted key once. */
  lemma {:induction false} RemoveAllClosedForm(items: Items, targets: seq<string>, symbol: string)
    ensures RemoveAll(items, targets, symbol) == map k | k in items && k !in TargetKeys(targets, symbol) :: items[k]
    ensures NoDup(RemovedPairs(items, targets, symbol))
    ensures forall k :: k in RemovedPairs(items, targets, symbol) <==> k in items && k in TargetKeys(targets, symbol)
    decreases |targets|
  {
    if targets != [] {
      var n := |targets| - 1;
      RemoveAllClosedForm(items, targets[..n], symbol);
      TargetKeysSnoc(targets, symbol);
    }
  }

  // ---------------------------------------------------------------------------
  // prune_expired and reset_all_ttl
  // ---------------------------------------------------------------------------

  /** The item map after `prune_expired`: the expired entries are gone. */
  function Pruned(items: Items, now: int): Items {
    map k | k in items && !Expired(items[k], now) :: items[k]
  }

  /** The keys `prune_expired` removes. */
  function ExpiredKeys(items: Items, now: int): set<Key> {
    set k | k in items && Expired(items[k], now)
  }

  /** Pruning keeps every permanent and every unexpired entry untouched, removes
      only expired ones, does not change which pairs are active, and is idempotent. */
  lemma PruneKeepsActive(items: Items, now: int)
    ensures forall k :: k in items ==> (k in Pruned(items, now) <==> Active(items[k], now))
    ensures forall k :: k in Pruned(items, now) ==> Pruned(items, now)[k] == items[k]
    ensures forall k :: k in items && items[k].expireAt.None? ==> k in Pruned(items, now)
    ensures Pruned(items, now).Keys == items.Keys - ExpiredKeys(items, now)
    ensures ActiveKeys(Pruned(items, now), now) == ActiveKeys(items, now)
    ensures Pruned(Pruned(items, now), now) == Pruned(items, now)
  {
  }

  /** The keys of the active entries (`active_pairs`, as a set). */
  function ActiveKeys(items: Items, now: int): set<Key> {
    set k | k in items && Active(items[k], now)
  }

  /** The symbols of the active entries (`active_symbols`). */
  function ActiveSymbolsOf(items: Items, now: int): set<string> {
    set k | k in items && Active(items[k], now) :: k.1
  }

  /** The item map after `reset_all_ttl`: every entry gets the same expiry and
      `updated_at == now`. */
  function ResetAll(items: Items, now: int, expireAt: Option<int>): Items {
    map k | k in items :: items[k].(updatedAt := now, expireAt := expireAt)
  }

  /** After a reset every entry has the requested expiry, nothing else but
      `updated_at` changes, and with no ttl or a positive one everything is active. */
  lemma ResetAllFacts(items: Items, now: int, ttl: Option<int>)
    ensures ResetAll(items, now, ExpireAt(now, ttl)).Keys == items.Keys
    ensures forall k :: k in items ==>
              var r := ResetAll(items, now, ExpireAt(now, ttl))[k];
              r.expireAt == ExpireAt(now, ttl) && r.updatedAt == now
              && r.(updatedAt := items[k].updatedAt, expireAt := items[k].expireAt) == items[k]
    ensures (ttl.None? || ttl.value > 0) ==> ActiveKeys(ResetAll(items, now, ExpireAt(now, ttl)), now) == items.Keys
    ensures ttl.Some? && ttl.value <= 0 ==> ActiveKeys(ResetAll(items, now, ExpireAt(now, ttl)), now) == {}
  {
  }

  // ---------------------------------------------------------------------------
  // snapshot
  // ---------------------------------------------------------------------------

  /** One row of `snapshot()`. */
  datatype SnapshotEntry = SnapshotEntry(
    exchange: string,
    symbol: string,
    active: bool,
    createdAt: int,
    updatedAt: int,
    expireAt: Option<int>,
    ttlSeconds: Option<int>,
    source: Option<string>,
    reason: Option<string>)

  function EntryOf(item: WatchItem, now: int): SnapshotEntry {
    SnapshotEntry(item.exchange, item.symbol, Active(item, now), item.createdAt, item.updatedAt,
                  item.expireAt, TtlSeconds(item, now), item.source, item.reason)
  }

  /** The sort key `(symbol, exchange)`, compared as Python compares tuples of strings. */
  predicate EntryLess(a: SnapshotEntry, b: SnapshotEntry) {
    StrLess(a.symbol, b.symbol) || (a.symbol == b.symbol && StrLess(a.exchange, b.exchange))
  }

  predicate SortedEntries(s: seq<SnapshotEntry>) {
    forall i, j :: 0 <= i < j < |s| ==> EntryLess(s[i], s[j])
  }

  lemma EntryLessTransitive(a: SnapshotEntry, b: SnapshotEntry, c: SnapshotEntry)
    requires EntryLess(a, b) && EntryLess(b, c)
    ensures EntryLess(a, c)
  {
    if StrLess(a.symbol, b.symbol) && StrLess(b.symbol, c.symbol) {
      StrLessTransitive(a.symbol, b.symbol, c.symbol);
    } else if a.symbol == b.symbol && b.symbol == c.symbol {
      StrLessTransitive(a.exchange, b.exchange, c.exchange);
    }
  }

  lemma EntryLessTotal(a: SnapshotEntry, b: SnapshotEntry)
    requires (a.symbol, a.exchange) != (b.symbol, b.exchange)
    ensures EntryLess(a, b) || EntryLess(b, a)
  {
    if a.symbol != b.symbol {
      StrLessTotal(a.symbol, b.symbol);
    } else {
      StrLessTotal(a.exchange, b.exchange);
    }
  }

  /** Insertion into a list sorted by `(symbol, exchange)`. */
  function InsertSorted(s: seq<SnapshotEntry>, e: SnapshotEntry): seq<SnapshotEntry> {
    if s == [] || EntryLess(e, s[0]) then [e] + s
    else [s[0]] + InsertSorted(s[1..], e)
  }

  /** Inserting an entry whose sort key is new keeps the list sorted, adds one
      element, and loses none. */
  lemma {:induction false} InsertSortedFacts(s: seq<SnapshotEntry>, e: SnapshotEntry)
    requires SortedEntries(s)
    requires forall i :: 0 <= i < |s| ==> (s[i].symbol, s[i].exchange) != (e.symbol, e.exchange)
    ensures SortedEntries(InsertSorted(s, e))
    ensures |InsertSorted(s, e)| == |s| + 1
    ensures forall x :: x in InsertSorted(s, e) <==> x == e || x in s
  {
    if s != [] && !EntryLess(e, s[0]) {
      EntryLessTotal(e, s[0]);
      var tl := s[1..];
      assert SortedEntries(tl) by {
        forall i, j | 0 <= i < j < |tl| ensures EntryLess(tl[i], tl[j]) {
          assert tl[i] == s[i + 1] && tl[j] == s[j + 1];
        }
      }
      InsertSortedFacts(tl, e);
      var rest := InsertSorted(tl, e);
      assert forall i :: 0 <= i < |rest| ==> EntryLess(s[0], rest[i]) by {
        forall i | 0 <= i < |rest| ensures EntryLess(s[0], rest[i]) {
          assert rest[i] in rest;
          if rest[i] != e {
            var j :| 0 <= j < |tl| && tl[j] == rest[i];
            assert tl[j] == s[j + 1];
          }
        }
      }
      assert forall x :: x in s <==> x == s[0] || x in tl;
    } else if s != [] {
      assert forall i :: 0 < i < |s| ==> EntryLess(e, s[i]) by {
        forall i | 0 < i < |s| ensures EntryLess(e, s[i]) {
          EntryLessTransitive(e, s[0], s[i]);
        }
      }
    }
  }
}
