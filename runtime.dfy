/** `MonitorApiRuntime`: the watchlist, the subscription controller and the
    display order of symbols (`_symbol_order`) that decides the order of the
    symbol list handed to the analysis (`set_symbols`). Each runtime operation
    runs a watchlist operation, keeps `_symbol_order`, asks the controller to
    (un)subscribe the pairs that changed, and recomputes the analysis list. */
module MonitorRuntime {
  import opened Options
  import opened Text
  import opened Watchlist
  import opened WatchlistStorage
  import opened WatchlistManagement
  import opened Subscriptions

  /** `DEFAULT_BASELINE_SYMBOLS`, the initial `_symbol_order`. */
  const DefaultBaselineSymbols: seq<string> := ["BTC-USDC-PERP", "ETH-USDC-PERP"]

  function SetOf(xs: seq<string>): set<string> {
    set x | x in xs
  }

  /** `[s for s in xs if s in pool]`. */
  function KeepIn(xs: seq<string>, pool: set<string>): (r: seq<string>)
    ensures forall x :: x in r <==> x in xs && x in pool
    decreases |xs|
  {
    if xs == [] then []
    else
      var n := |xs| - 1;
      assert xs == xs[..n] + [xs[n]];
      KeepIn(xs[..n], pool) + (if xs[n] in pool then [xs[n]] else [])
  }

  /** `[s for s in xs if s not in pool]`. */
  function KeepOut(xs: seq<string>, pool: set<string>): (r: seq<string>)
    ensures forall x :: x in r <==> x in xs && x !in pool
    decreases |xs|
  {
    if xs == [] then []
    else
      var n := |xs| - 1;
      assert xs == xs[..n] + [xs[n]];
      KeepOut(xs[..n], pool) + (if xs[n] !in pool then [xs[n]] else [])
  }

  /** Filtering a list without repeats gives a list without repeats. */
  lemma {:induction false} KeepInNoDup(xs: seq<string>, pool: set<string>)
    requires NoDup(xs)
    ensures NoDup(KeepIn(xs, pool))
    decreases |xs|
  {
    if xs != [] {
      var n := |xs| - 1;
      assert forall i, j :: 0 <= i < j < n ==> xs[..n][i] == xs[i] && xs[..n][j] == xs[j];
      KeepInNoDup(xs[..n], pool);
      assert xs[n] !in xs[..n];
    }
  }

  lemma {:induction false} KeepOutNoDup(xs: seq<string>, pool: set<string>)
    requires NoDup(xs)
    ensures NoDup(KeepOut(xs, pool))
    decreases |xs|
  {
    if xs != [] {
      var n := |xs| - 1;
      assert forall i, j :: 0 <= i < j < n ==> xs[..n][i] == xs[i] && xs[..n][j] == xs[j];
      KeepOutNoDup(xs[..n], pool);
      assert xs[n] !in xs[..n];
    }
  }

  /** Filtering keeps the relative order: two kept elements appear in the result
      in the order they had in `xs`. */
  lemma {:induction false} KeepInOrder(xs: seq<string>, pool: set<string>, i: nat, j: nat)
    requires i < j < |xs| && xs[i] in pool && xs[j] in pool
    ensures exists p, q :: 0 <= p < q < |KeepIn(xs, pool)| && KeepIn(xs, pool)[p] == xs[i] && KeepIn(xs, pool)[q] == xs[j]
    decreases |xs|
  {
    var n := |xs| - 1;
    var init := xs[..n];
    var kept := KeepIn(init, pool);
    var tail := if xs[n] in pool then [xs[n]] else [];
    assert KeepIn(xs, pool) == kept + tail;
    if j < n {
      assert init[i] == xs[i] && init[j] == xs[j];
      KeepInOrder(init, pool, i, j);
      var p, q :| 0 <= p < q < |kept| && kept[p] == xs[i] && kept[q] == xs[j];
      assert KeepIn(xs, pool)[p] == xs[i] && KeepIn(xs, pool)[q] == xs[j];
    } else {
      assert xs[i] in init;
      var p :| 0 <= p < |kept| && kept[p] == xs[i];
      assert KeepIn(xs, pool)[p] == xs[i] && KeepIn(xs, pool)[|kept|] == xs[j];
    }
  }

  /** What `_refresh_symbols_for_analysis` promises of its result `ordered`: the
      symbols of the prior order that are still active come first, in their
      prior order, followed by each other active symbol once. */
  ghost predicate IsMergeOf(ordered: seq<string>, order: seq<string>, active: set<string>) {
    var kept := KeepIn(order, active);
    && |kept| <= |ordered|
    && ordered[..|kept|] == kept
    && NoDup(ordered[|kept|..])
    && forall s :: s in ordered[|kept|..] <==> s in active && s !in order
  }

  /** Two lists without repeats and without common elements concatenate to a list
      without repeats. */
  lemma NoDupConcat(a: seq<string>, b: seq<string>)
    requires NoDup(a) && NoDup(b)
    requires forall x :: x in a ==> x !in b
    ensures NoDup(a + b)
  {
    var c := a + b;
    forall i, j | 0 <= i < j < |c| ensures c[i] != c[j] {
      if j < |a| {
        assert c[i] == a[i] && c[j] == a[j];
      } else if i >= |a| {
        assert c[i] == b[i - |a|] && c[j] == b[j - |a|];
      } else {
        assert c[i] == a[i] && c[j] == b[j - |a|];
        assert a[i] in a;
      }
    }
  }

  /** A merge lists every active symbol exactly once, and nothing else. */
  lemma MergeFacts(ordered: seq<string>, order: seq<string>, active: set<string>)
    requires IsMergeOf(ordered, order, active) && NoDup(order)
    ensures NoDup(ordered)
    ensures forall s :: s in ordered <==> s in active
  {
    var kept := KeepIn(order, active);
    var rest := ordered[|kept|..];
    KeepInNoDup(order, active);
    assert ordered == kept + rest;
    NoDupConcat(kept, rest);
  }

  /** `_refresh_symbols_for_analysis` over the list of active symbols in the
      order the set yields them. */
  method MergeOrder(order: seq<string>, active: seq<string>) returns (ordered: seq<string>)
    requires NoDup(active)
    ensures ordered == KeepIn(order, SetOf(active)) + KeepOut(active, SetOf(order))
  {
    ordered := KeepIn(order, SetOf(active));
    ghost var kept := ordered;
    var i := 0;
    while i < |active|
      invariant 0 <= i <= |active|
      invariant ordered == kept + KeepOut(active[..i], SetOf(order))
    {
      var s := active[i];
      MergeStep(order, active, i);
      if s !in ordered {
        ordered := ordered + [s];
      }
      i := i + 1;
    }
    assert active[..i] == active;
  }

  /** One round of the loop of `MergeOrder`: the next active symbol is already
      listed exactly when it is in the prior order. */
  lemma MergeStep(order: seq<string>, active: seq<string>, i: nat)
    requires NoDup(active) && i < |active|
    ensures active[i] in KeepIn(order, SetOf(active)) + KeepOut(active[..i], SetOf(order)) <==> active[i] in order
    ensures KeepOut(active[..i + 1], SetOf(order))
            == KeepOut(active[..i], SetOf(order)) + (if active[i] in order then [] else [active[i]])
  {
    var s := active[i];
    assert active[..i + 1][..i] == active[..i];
    assert s in SetOf(active);
    assert s !in active[..i];
  }

  /** The result of `MergeOrder` is a merge of the prior order with the active set. */
  lemma MergeOrderIsMerge(order: seq<string>, active: seq<string>)
    requires NoDup(active)
    ensures IsMergeOf(KeepIn(order, SetOf(active)) + KeepOut(active, SetOf(order)), order, SetOf(active))
  {
    var kept := KeepIn(order, SetOf(active));
    var ordered := kept + KeepOut(active, SetOf(order));
    assert ordered[..|kept|] == kept;
    assert ordered[|kept|..] == KeepOut(active, SetOf(order));
    KeepOutNoDup(active, SetOf(order));
  }

  /** `exchanges = [normalize(e) for e in exchanges]` when the list is non-empty. */
  function PreNormalized(exchanges: Option<seq<string>>): Option<seq<string>> {
    if exchanges.Some? && exchanges.value != [] then
      Some(seq(|exchanges.value|, i requires 0 <= i < |exchanges.value| => NormalizeExchange(exchanges.value[i])))
    else exchanges
  }

  /** Normalising before `add`, as `add_watch` does, changes nothing: `add` sees
      the same targets and the same symbol as from the raw input. */
  lemma PreNormalizedTargets(symbol: string, exchanges: Option<seq<string>>, defaults: seq<string>)
    ensures Targets(PreNormalized(exchanges), defaults) == Targets(exchanges, defaults)
    ensures NormalizeSymbol(NormalizeSymbol(symbol)) == NormalizeSymbol(symbol)
  {
    UpperStripIdempotent(symbol);
    if exchanges.Some? && exchanges.value != [] {
      var raw := exchanges.value;
      TargetsNormalized(exchanges, defaults);
      TargetsNormalized(PreNormalized(exchanges), defaults);
      forall i | 0 <= i < |raw| ensures NormalizeExchange(NormalizeExchange(raw[i])) == NormalizeExchange(raw[i]) {
        LowerStripIdempotent(raw[i]);
      }
    }
  }

  /** Normalising before `touch`, as `touch_watch` does, changes nothing either. */
  lemma PreNormalizedPair(exchange: string, symbol: string)
    ensures PairKey(NormalizeExchange(exchange), NormalizeSymbol(symbol)) == PairKey(exchange, symbol)
  {
    NormalizedKeyOf(exchange, symbol);
  }

  class MonitorApiRuntime {
    const watchlist: WatchlistManager
    const subscriptions: SubscriptionController
    /** `_symbol_order`. */
    var symbolOrder: seq<string>
    /** The list last passed to `orchestrator.set_symbols`. */
    var analysisSymbols: seq<string>

    ghost predicate Valid()
      reads this, watchlist, watchlist.store
    {
      watchlist.Valid() && NoDup(symbolOrder)
    }

    constructor (defaultExchanges: seq<string>, store: SqliteWatchlistStore?)
      requires store != null ==> store.Valid()
      ensures Valid() && fresh(watchlist) && fresh(subscriptions)
      ensures watchlist.defaultExchanges == defaultExchanges && watchlist.store == store && watchlist.items == map[]
      ensures subscriptions.subscribed == {}
      ensures symbolOrder == DefaultBaselineSymbols && analysisSymbols == []
    {
      watchlist := new WatchlistManager(defaultExchanges, store);
      subscriptions := new SubscriptionController();
      symbolOrder := DefaultBaselineSymbols;
      analysisSymbols := [];
    }

    /** `_refresh_symbols_for_analysis`. */
    method RefreshSymbolsForAnalysis(now: int)
      modifies this
      ensures symbolOrder == old(symbolOrder)
      ensures IsMergeOf(analysisSymbols, symbolOrder, ActiveSymbolsOf(watchlist.items, now))
    {
      var active := watchlist.ActiveSymbols(now);
      assert SetOf(active) == ActiveSymbolsOf(watchlist.items, now);
      analysisSymbols := MergeOrder(symbolOrder, active);
      MergeOrderIsMerge(symbolOrder, active);
    }

    /** `if symbol not in self._symbol_order: self._symbol_order.append(symbol)`. */
    method NoteSymbol(symbol: string)
      modifies this
      ensures symbolOrder == if symbol in old(symbolOrder) then old(symbolOrder) else old(symbolOrder) + [symbol]
      ensures NoDup(old(symbolOrder)) ==> NoDup(symbolOrder)
      ensures symbol in symbolOrder
      ensures analysisSymbols == old(analysisSymbols)
    {
      if symbol !in symbolOrder {
        symbolOrder := symbolOrder + [symbol];
      }
    }

    /** `add_watch`: normalise, `add`, remember the symbol's place in the display
        order, subscribe every new pair (an exception from one of them is
        swallowed) and refresh the analysis list. The adapter calls for a pair
        `k` end with `outcome(k)`. */
    method AddWatch(symbol: string, exchanges: Option<seq<string>>, ttl: Option<int>,
                    source: Option<string>, reason: Option<string>, now: int, storeOk: bool,
                    outcome: Key -> Outcome)
      returns (sym: string, newPairs: seq<Key>, touchedPairs: seq<Key>)
      requires Valid()
      modifies this, watchlist, watchlist.store, subscriptions
      ensures Valid()
      ensures sym == NormalizeSymbol(symbol)
      ensures var targets := Targets(PreNormalized(exchanges), watchlist.defaultExchanges);
              var s := NormalizeSymbol(sym);
              watchlist.items == AddAll(old(watchlist.items), targets, s, now, ExpireAt(now, ttl), source, reason)
              && newPairs == NewPairs(old(watchlist.items).Keys, targets, s)
              && touchedPairs == TouchedPairs(old(watchlist.items).Keys, targets, s)
              && (watchlist.store != null ==>
                    watchlist.store.rows
                    == if storeOk
                       then old(watchlist.store.rows)
                            + (map k | k in watchlist.items && k in TargetKeys(targets, s) :: watchlist.items[k])
                       else old(watchlist.store.rows))
      ensures symbolOrder == if sym in old(symbolOrder) then old(symbolOrder) else old(symbolOrder) + [sym]
      ensures subscriptions.subscribed == SubscribeAllStep(old(subscriptions.subscribed), newPairs, outcome)
      ensures IsMergeOf(analysisSymbols, symbolOrder, ActiveSymbolsOf(watchlist.items, now))
    {
      sym := NormalizeSymbol(symbol);
      newPairs, touchedPairs := watchlist.Add(sym, PreNormalized(exchanges), ttl, source, reason, now, storeOk);
      NoteSymbol(sym);
      subscriptions.SubscribeAll(newPairs, outcome);
      RefreshSymbolsForAnalysis(now);
    }

    /** `touch_watch`: normalise, `touch`, remember the symbol, subscribe the pair
        (its exception swallowed) and refresh the analysis list. */
    method TouchWatch(exchange: string, symbol: string, ttl: int, source: Option<string>, reason: Option<string>,
                      now: int, storeOk: bool, outcome: Outcome)
      returns (key: Key, existed: bool)
      requires Valid()
      modifies this, watchlist, watchlist.store, subscriptions
      ensures Valid()
      ensures key == (NormalizeExchange(exchange), NormalizeSymbol(symbol))
      ensures PairKey(key.0, key.1) == key
      ensures var k := PairKey(key.0, key.1);
              && (existed <==> k in old(watchlist.items))
              && watchlist.items == AddOne(old(watchlist.items), k, now, Some(now + ttl), source, reason)
              && (watchlist.store != null ==>
                    watchlist.store.rows == if storeOk then old(watchlist.store.rows)[k := watchlist.items[k]]
                                            else old(watchlist.store.rows))
      ensures symbolOrder == if key.1 in old(symbolOrder) then old(symbolOrder) else old(symbolOrder) + [key.1]
      ensures subscriptions.subscribed == SubscribeStep(old(subscriptions.subscribed), key, outcome)
      ensures IsMergeOf(analysisSymbols, symbolOrder, ActiveSymbolsOf(watchlist.items, now))
    {
      key := (NormalizeExchange(exchange), NormalizeSymbol(symbol));
      NormalizedKeyOf(exchange, symbol);
      existed := watchlist.Touch(key.0, key.1, ttl, source, reason, now, storeOk);
      NoteSymbol(key.1);
      subscriptions.SubscribePair(key.0, key.1, outcome);
      RefreshSymbolsForAnalysis(now);
    }

    /** `remove_watch`: normalise, `remove`, unsubscribe every removed pair and
        refresh the analysis list; the display order keeps the symbol. */
    method RemoveWatch(symbol: string, exchanges: Option<seq<string>>, now: int, storeOk: bool,
                       outcome: Key -> Outcome)
      returns (removed: seq<Key>)
      requires Valid()
      modifies this, watchlist, watchlist.store, subscriptions
      ensures Valid()
      ensures var targets := Targets(PreNormalized(exchanges), watchlist.defaultExchanges);
              var s := NormalizeSymbol(NormalizeSymbol(symbol));
              && watchlist.items == RemoveAll(old(watchlist.items), targets, s)
              && removed == RemovedPairs(old(watchlist.items), targets, s)
              && (watchlist.store != null ==>
                    watchlist.store.rows
                    == if storeOk && removed != []
                       then map k | k in old(watchlist.store.rows) && k !in removed :: old(watchlist.store.rows)[k]
                       else old(watchlist.store.rows))
      ensures symbolOrder == old(symbolOrder)
      ensures subscriptions.subscribed == UnsubscribeAllStep(old(subscriptions.subscribed), removed, outcome)
      ensures IsMergeOf(analysisSymbols, symbolOrder, ActiveSymbolsOf(watchlist.items, now))
    {
      removed := watchlist.Remove(NormalizeSymbol(symbol), PreNormalized(exchanges), storeOk);
      subscriptions.UnsubscribeAll(removed, outcome);
      RefreshSymbolsForAnalysis(now);
    }

    /** `reset_watchlist_ttl`. */
    method ResetWatchlistTtl(ttl: Option<int>, now: int, storeOk: bool) returns (count: int)
      requires Valid()
      modifies this, watchlist, watchlist.store
      ensures Valid()
      ensures watchlist.items == ResetAll(old(watchlist.items), now, ExpireAt(now, ttl))
      ensures count == |old(watchlist.items)|
      ensures watchlist.store != null ==>
                watchlist.store.rows == if storeOk then old(watchlist.store.rows) + watchlist.items
                                        else old(watchlist.store.rows)
      ensures symbolOrder == old(symbolOrder)
      ensures IsMergeOf(analysisSymbols, symbolOrder, ActiveSymbolsOf(watchlist.items, now))
    {
      count := watchlist.ResetAllTtl(ttl, now, storeOk);
      RefreshSymbolsForAnalysis(now);
    }

    /** One round of `_prune_loop` after its sleep: prune, unsubscribe what was
        pruned and, when anything was, refresh the analysis list. */
    method PruneTick(now: int, storeOk: bool, outcome: Key -> Outcome) returns (expired: seq<Key>)
      requires Valid()
      modifies this, watchlist, watchlist.store, subscriptions
      ensures Valid()
      ensures watchlist.items == Pruned(old(watchlist.items), now)
      ensures NoDup(expired) && forall k :: k in expired <==> k in ExpiredKeys(old(watchlist.items), now)
      ensures watchlist.store != null ==>
                watchlist.store.rows
                == if storeOk && expired != []
                   then map k | k in old(watchlist.store.rows) && k !in expired :: old(watchlist.store.rows)[k]
                   else old(watchlist.store.rows)
      ensures symbolOrder == old(symbolOrder)
      ensures subscriptions.subscribed == UnsubscribeAllStep(old(subscriptions.subscribed), expired, outcome)
      ensures expired == [] ==> analysisSymbols == old(analysisSymbols)
      ensures expired != [] ==> IsMergeOf(analysisSymbols, symbolOrder, ActiveSymbolsOf(watchlist.items, now))
    {
      expired := watchlist.PruneExpired(now, storeOk);
      if expired != [] {
        subscriptions.UnsubscribeAll(expired, outcome);
        RefreshSymbolsForAnalysis(now);
      }
    }
  }
}
