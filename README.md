# Watchlist and symbol conversion control plane, in Dafny

This project models the subscription control plane of the arbitrage monitor
service and proves properties of the model.

- **`WatchlistManager`** keeps the desired watch state: a map from
  `(exchange, symbol)` to a `WatchItem` with an optional expiry.
  - Its operations are `add`, `touch`, `remove`, `prune_expired`,
    `reset_all_ttl`, `load_from_store`, the read projections (`is_active`,
    `active_pairs`, `active_symbols`) and `snapshot`.
  - It writes the changed rows to a `SqliteWatchlistStore`, modelled as an
    abstract table of rows keyed by `(exchange, symbol)`.
- **`SubscriptionController`** keeps the set of pairs it believes are
  subscribed at the exchange adapters.
- **`MonitorApiRuntime`** ties the two together:
  - it keeps the display order `_symbol_order`;
  - it recomputes the symbol list handed to the analysis
    (`_refresh_symbols_for_analysis`) after every change;
  - `add_watch`, `touch_watch`, `remove_watch`, `reset_watchlist_ttl` and one
    round of the prune loop each run one watchlist operation and then
    (un)subscribe the pairs that changed.
- **`SimpleSymbolConverter`** translates between the canonical symbol
  `BASE-QUOTE-TYPE` (`BTC-USDC-PERP`) and the native forms of nine exchanges.
  - A per-exchange override table (`DIRECT_MAPPING`) takes precedence over the
    per-exchange formatting rules (`EXCHANGE_FORMATS`).
  - The reverse direction consults a lazily built reverse index of the
    override tables, then falls back to per-exchange inference.
  - `add_mapping` adds or overwrites an override and drops the reverse index.

The model runs on values the program receives from outside:

- Time is an integer `now` parameter.
- The outcome of each adapter call is a parameter (`Outcome`, or a function
  from pair to `Outcome`).
- The success of each store write is a `storeOk` parameter.
- The optional custom-mapping file is a `custom` list that seeds the override
  tables.

Files:

| file | module | contents |
|---|---|---|
| `options.dfy` | `Options` | `Option` |
| `text.dfy` | `Text` | the Python `str` operations used: `strip`, `lower`/`upper` (ASCII), `split`, `split(c, 1)`, `replace`, `isalnum`, string `<` |
| `watchlist.dfy` | `Watchlist` | `WatchItem`, the activity test, key normalisation, and the meaning of `add`, `remove`, `prune_expired` and `reset_all_ttl` as functions on the item map, with their closed forms; the snapshot order |
| `watchlist_store.dfy` | `WatchlistStorage` | the store as a class over a map of rows (`load_active_items`, `upsert_items`, `delete_keys`) |
| `watchlist_manager.dfy` | `WatchlistManagement` | the `WatchlistManager` class: each method's loop proved against the functions of `Watchlist`, and the store kept in step |
| `subscriptions.dfy` | `Subscriptions` | the tracked-set state machine and the `SubscriptionController` class |
| `runtime.dfy` | `MonitorRuntime` | the order-preserving merge behind `_refresh_symbols_for_analysis`, and the `MonitorApiRuntime` class |
| `symbol_conversion.dfy` | `SymbolConversion` | `EXCHANGE_FORMATS`, `DIRECT_MAPPING`, `_auto_convert`, `convert_to_exchange`, inference, `convert_from_exchange`, `add_mapping`, and the converter class with its reverse-index cache |
| `symbol_conversion_properties.dfy` | `SymbolConversionProperties` | dictionary semantics of the override tables, override precedence, the override round trip, the effects of `add_mapping`, the `_auto_convert` cases |
| `symbol_round_trip.dfy` | `SymbolRoundTrip` | with the shipped tables, `BASE-USDC-PERP` converts to each exchange's native form and back |

Behaviours worth knowing:

- Permanence is sticky. When `add` meets an existing entry and either the
  stored or the requested expiry is `None`, the entry becomes permanent.
- `add` with a repeated exchange in its list visits the same key twice. The key
  is then reported in both `new_pairs` and `touched_pairs`. Each key lands in
  exactly one of the two lists only when the target exchanges are distinct
  (`Watchlist.TouchedPairsExact`).
- An absent exchange list and an empty one both fall back to the default
  exchanges (`exchanges or default_exchanges`).
- `unsubscribe_pair` clears the pair on every path except one: an adapter call
  that raises. The documented intent is that it always clears the pair. The
  model records the code as written (`Subscriptions.UnsubscribeAsWritten`).
  The controller class uses the corrected rule; see "## Findings".

## Model

| member | source | states |
|---|---|---|
| Text.StripEnds | core/services/arbitrage_monitor_v2/api/runtime.py:142 | `strip()` leaves no white space (Python's `isspace` set) at either end |
| Text.StripIdempotent | core/services/arbitrage_monitor_v2/api/runtime.py:142 | stripping twice is stripping once |
| Text.LowerStripIdempotent | core/services/arbitrage_monitor_v2/api/runtime.py:141-142 | `strip().lower()` is a fixpoint: an exchange name normalises to itself once normalised |
| Text.UpperStripIdempotent | core/services/arbitrage_monitor_v2/api/runtime.py:145-146 | `strip().upper()` is a fixpoint: a symbol normalises to itself once normalised |
| Text.JoinSplit | core/services/arbitrage_monitor/utils/symbol_converter.py:218 | joining the parts of `split('-')` with `-` gives back the string |
| Text.SplitJoin | core/services/arbitrage_monitor/utils/symbol_converter.py:218 | splitting what was joined from separator-free parts gives back the parts |
| Text.SplitOnceAt | core/services/arbitrage_monitor/utils/symbol_converter.py:329 | `split(c, 1)` cuts at the first `c` |
| Text.StrLessIrreflexive | core/services/arbitrage_monitor_v2/api/runtime.py:332 | string `<` is irreflexive |
| Text.StrLessTransitive | core/services/arbitrage_monitor_v2/api/runtime.py:332 | string `<` is transitive |
| Text.StrLessTotal | core/services/arbitrage_monitor_v2/api/runtime.py:332 | two different strings are ordered one way or the other |
| Watchlist.Active | core/services/arbitrage_monitor_v2/api/runtime.py:153-156 | the activity test: permanent, or `expire_at > now`; its views are related in `WatchlistManagement.ActiveViewsAgree` |
| Watchlist.NormalizeExchange | core/services/arbitrage_monitor_v2/api/runtime.py:140-142 | `strip().lower()`; a fixpoint by `Text.LowerStripIdempotent` |
| Watchlist.NormalizeSymbol | core/services/arbitrage_monitor_v2/api/runtime.py:144-146 | `strip().upper()`; a fixpoint by `Text.UpperStripIdempotent` |
| Watchlist.Touched | core/services/arbitrage_monitor_v2/api/runtime.py:227-232 | one visit of a present entry: `updated_at = now` and sticky permanence; its facts are `TouchedIdempotent` and `TouchedFresh` |
| Watchlist.AddOne | core/services/arbitrage_monitor_v2/api/runtime.py:214-233 | one loop step of `add`: touch a present key, otherwise insert a fresh entry |
| Watchlist.AddAll | core/services/arbitrage_monitor_v2/api/runtime.py:212-233 | the `add` loop over the targets; its whole effect is `AddAllClosedForm` |
| Watchlist.RemoveAll | core/services/arbitrage_monitor_v2/api/runtime.py:270-275 | the `remove` loop over the targets; its whole effect is `RemoveAllClosedForm` |
| Watchlist.Pruned | core/services/arbitrage_monitor_v2/api/runtime.py:286-290 | the map without its expired entries; its facts are `PruneKeepsActive` |
| Watchlist.ResetAll | core/services/arbitrage_monitor_v2/api/runtime.py:299-305 | every entry with the same expiry and `updated_at = now`; its facts are `ResetAllFacts` |
| Watchlist.TtlSeconds | core/services/arbitrage_monitor_v2/api/runtime.py:30-34 | `None` exactly for a permanent item; otherwise never negative, positive exactly while active, and then `expire_at == now + ttl` |
| Watchlist.NormalizedKeyOf | core/services/arbitrage_monitor_v2/api/runtime.py:140-146 | a key built from `_normalize_exchange`/`_normalize_symbol` is its own normal form |
| Watchlist.Targets | core/services/arbitrage_monitor_v2/api/runtime.py:206 | one target per requested exchange; the defaults when the list is absent or empty |
| Watchlist.TargetsNormalized | core/services/arbitrage_monitor_v2/api/runtime.py:206 | each target is the normalised exchange at its position, and is its own normal form |
| Watchlist.AddAllClosedForm | core/services/arbitrage_monitor_v2/api/runtime.py:212-233 | after `add`: keys are the old keys plus the target keys; a present target is touched (sticky permanence, `updated_at = now`, `created_at` kept); an absent target is fresh (`created_at = updated_at = now`, the requested expiry, source and reason); every other entry is unchanged |
| Watchlist.AddAllKeys | core/services/arbitrage_monitor_v2/api/runtime.py:212-233 | the keys after `add` are the old keys and every target key |
| Watchlist.TouchedIdempotent | core/services/arbitrage_monitor_v2/api/runtime.py:227-232 | touching an entry twice with the same time and expiry is touching it once |
| Watchlist.TouchedFresh | core/services/arbitrage_monitor_v2/api/runtime.py:216-232 | touching a fresh entry with its own time and expiry leaves it as it is |
| Watchlist.AddReportsEveryVisit | core/services/arbitrage_monitor_v2/api/runtime.py:213-233 | `new_pairs` and `touched_pairs` together have one entry per target exchange, all of them target keys |
| Watchlist.NewPairsExact | core/services/arbitrage_monitor_v2/api/runtime.py:214-226 | `new_pairs` lists, once each, exactly the target keys that were absent |
| Watchlist.TouchedPairsExact | core/services/arbitrage_monitor_v2/api/runtime.py:227-233 | `touched_pairs` lists every target key that was present and, for distinct targets, nothing else |
| Watchlist.RemoveAllClosedForm | core/services/arbitrage_monitor_v2/api/runtime.py:270-275 | `remove` deletes exactly the target keys, with no expiry check; every other entry is unchanged; the result lists, once each, the target keys that were present |
| Watchlist.PruneKeepsActive | core/services/arbitrage_monitor_v2/api/runtime.py:286-290 | pruning removes exactly the expired entries, keeps permanent and unexpired entries unchanged, keeps the set of active keys, and is idempotent |
| Watchlist.ResetAllFacts | core/services/arbitrage_monitor_v2/api/runtime.py:299-305 | after a reset the key set is unchanged, every entry has the same expiry (`now + ttl` or none) and `updated_at == now`, and nothing else changes; with no ttl or a positive ttl every entry is active, with a non-positive ttl none is |
| Watchlist.EntryLessTransitive | core/services/arbitrage_monitor_v2/api/runtime.py:332 | the `(symbol, exchange)` order is transitive |
| Watchlist.EntryLessTotal | core/services/arbitrage_monitor_v2/api/runtime.py:332 | rows with different `(symbol, exchange)` are ordered one way or the other |
| Watchlist.InsertSortedFacts | core/services/arbitrage_monitor_v2/api/runtime.py:332 | inserting a row with a new sort key keeps the list sorted and adds exactly that row |
| WatchlistStorage.UpsertKeys | core/services/arbitrage_monitor_v2/api/runtime.py:95-122 | an upsert keeps every row's key and adds the keys written |
| WatchlistStorage.UpsertLastWins | core/services/arbitrage_monitor_v2/api/runtime.py:99-109 | on conflict the last item written for a key is the row stored |
| WatchlistStorage.UpsertUntouched | core/services/arbitrage_monitor_v2/api/runtime.py:95-122 | a key not written keeps its row |
| WatchlistStorage.UpsertAllMerge | core/services/arbitrage_monitor_v2/api/runtime.py:95-122 | upserting items that agree with a map merges those entries of the map into the rows, whatever the item order |
| WatchlistStorage.SqliteWatchlistStore.constructor | core/services/arbitrage_monitor_v2/api/runtime.py:40-43 | a store over a table whose rows sit under their own primary key |
| WatchlistStorage.SqliteWatchlistStore.LoadActiveItems | core/services/arbitrage_monitor_v2/api/runtime.py:68-93 | every row lands in exactly one result: unexpired rows (`expire_at` absent or `> now`) as items, each row once; expired rows (`expire_at <= now`) as keys, each once |
| WatchlistStorage.SqliteWatchlistStore.UpsertItems | core/services/arbitrage_monitor_v2/api/runtime.py:95-122 | the rows become the old rows with each item written in turn under its key |
| WatchlistStorage.SqliteWatchlistStore.DeleteKeys | core/services/arbitrage_monitor_v2/api/runtime.py:124-128 | exactly the rows of the given keys are removed |
| WatchlistManagement.ActiveViewsAgree | core/services/arbitrage_monitor_v2/api/runtime.py:148-172 | `is_active`, `active_pairs`, `active_symbols` and the snapshot's `active` flag apply one and the same test |
| WatchlistManagement.AddAllWellKeyed | core/services/arbitrage_monitor_v2/api/runtime.py:213-233 | `add` keeps every entry under its own `(exchange, symbol)` key |
| WatchlistManagement.HydrateWellKeyed | core/services/arbitrage_monitor_v2/api/runtime.py:180-190 | loading keeps every entry under its own key |
| WatchlistManagement.HydrateNormalized | core/services/arbitrage_monitor_v2/api/runtime.py:180-190 | rows stored under normalised keys load back unchanged |
| WatchlistManagement.AddThenUpsert | core/services/arbitrage_monitor_v2/api/runtime.py:235-240 | writing back the entries `add` changed brings a store that mirrored the old map to the new map |
| WatchlistManagement.SortRowsFacts | core/services/arbitrage_monitor_v2/api/runtime.py:332 | sorting rows with distinct sort keys gives a sorted list with exactly the same rows |
| WatchlistManagement.AllRows | core/services/arbitrage_monitor_v2/api/runtime.py:314-333 | sorting one row per entry gives a sorted snapshot with one row per entry and nothing else |
| WatchlistManagement.SnapshotRows | core/services/arbitrage_monitor_v2/api/runtime.py:314-333 | `snapshot` is sorted by `(symbol, exchange)` and holds exactly one row per entry |
| WatchlistManagement.UpsertItemsAt | core/services/arbitrage_monitor_v2/api/runtime.py:238-240 | writing back `[items[k] for k in keys]` merges exactly those entries into the rows |
| WatchlistManagement.AddVisitsTargets | core/services/arbitrage_monitor_v2/api/runtime.py:238 | `new_pairs + touched_pairs` are exactly the target keys, all present after `add` |
| WatchlistManagement.TouchAsAdd | core/services/arbitrage_monitor_v2/api/runtime.py:255-263 | `touch` hands `add` a normalised pair that `add` does not change again |
| WatchlistManagement.AddOneTarget | core/services/arbitrage_monitor_v2/api/runtime.py:213-233 | `add` on one exchange is a single step of its loop |
| WatchlistManagement.NewPairsOne | core/services/arbitrage_monitor_v2/api/runtime.py:257-264 | for one exchange, `new_pairs` is empty exactly when the pair was present |
| WatchlistManagement.MergeSingle | core/services/arbitrage_monitor_v2/api/runtime.py:238-240 | writing back the entry of one key is a single-row update |
| WatchlistManagement.TargetKeysOne | core/services/arbitrage_monitor_v2/api/runtime.py:257-263 | `touch`'s one target exchange names just its own pair |
| WatchlistManagement.AddKeepsNormalized | core/services/arbitrage_monitor_v2/api/runtime.py:205-214 | `add` keeps every key normalised |
| WatchlistManagement.HydrateKeepsNormalized | core/services/arbitrage_monitor_v2/api/runtime.py:180-181 | loading installs every item under a normalised key |
| WatchlistManagement.HydrateHas | core/services/arbitrage_monitor_v2/api/runtime.py:180-190 | every loaded item ends up under its normalised key |
| WatchlistManagement.LoadMerges | core/services/arbitrage_monitor_v2/api/runtime.py:174-190 | with rows under normalised keys, loading merges exactly the unexpired rows over the current entries |
| WatchlistManagement.DeleteExpiredPrunes | core/services/arbitrage_monitor_v2/api/runtime.py:191-193 | deleting the keys reported as expired prunes the stored rows; when none are reported nothing is deleted |
| WatchlistManagement.WatchlistManager.constructor | core/services/arbitrage_monitor_v2/api/runtime.py:134-138 | an empty map with the given default exchanges and store |
| WatchlistManagement.WatchlistManager.IsActive | core/services/arbitrage_monitor_v2/api/runtime.py:148-156 | `is_active`: the normalised key is present and its item is active; tied to the other views by `ActiveViewsAgree` |
| WatchlistManagement.WatchlistManager.ActivePairs | core/services/arbitrage_monitor_v2/api/runtime.py:158-164 | each active key once, and nothing else |
| WatchlistManagement.WatchlistManager.ActiveSymbols | core/services/arbitrage_monitor_v2/api/runtime.py:166-172 | each symbol that has an active pair once, and nothing else |
| WatchlistManagement.WatchlistManager.Add | core/services/arbitrage_monitor_v2/api/runtime.py:195-244 | the map becomes `AddAll` of the normalised symbol on the target exchanges; the results are `new_pairs`/`touched_pairs`; the store gets exactly the changed entries when the write succeeds and is unchanged otherwise; a store in step with the map stays in step |
| WatchlistManagement.WatchlistManager.AddTargets | core/services/arbitrage_monitor_v2/api/runtime.py:212-242 | the same once the symbol and the exchanges are normalised |
| WatchlistManagement.WatchlistManager.AddEntries | core/services/arbitrage_monitor_v2/api/runtime.py:212-233 | the loop under the lock computes `AddAll`, `NewPairs` and `TouchedPairs` |
| WatchlistManagement.WatchlistManager.WriteBack | core/services/arbitrage_monitor_v2/api/runtime.py:237-242 | a successful upsert merges the entries of the given keys into the rows; a failed one changes nothing |
| WatchlistManagement.WatchlistManager.Touch | core/services/arbitrage_monitor_v2/api/runtime.py:246-264 | the result is true exactly when the normalised pair existed; the pair is in the map afterwards, touched or fresh with expiry `now + ttl`; the store gets that one row when the write succeeds |
| WatchlistManagement.WatchlistManager.TouchPair | core/services/arbitrage_monitor_v2/api/runtime.py:257-264 | `add` of one normalised pair, with `existed` reported from `new_pairs` being empty |
| WatchlistManagement.WatchlistManager.Remove | core/services/arbitrage_monitor_v2/api/runtime.py:266-281 | the map loses exactly the target keys, the result lists those that were present, and the store deletes them only when there are some and the delete succeeds |
| WatchlistManagement.WatchlistManager.RemoveTargets | core/services/arbitrage_monitor_v2/api/runtime.py:270-280 | the same once the symbol and the exchanges are normalised |
| WatchlistManagement.WatchlistManager.DeleteFromStore | core/services/arbitrage_monitor_v2/api/runtime.py:276-280 | a delete happens only for a non-empty key list and a successful call |
| WatchlistManagement.WatchlistManager.PruneExpired | core/services/arbitrage_monitor_v2/api/runtime.py:283-296 | the map is pruned of exactly the expired entries, the result lists each once, and the store deletes them when the delete succeeds |
| WatchlistManagement.WatchlistManager.ResetAllTtl | core/services/arbitrage_monitor_v2/api/runtime.py:298-312 | the map becomes `ResetAll`, the count is the number of entries, and the store gets every entry when the write succeeds |
| WatchlistManagement.WatchlistManager.ResetEntries | core/services/arbitrage_monitor_v2/api/runtime.py:301-305 | the loop rewrites every entry once and visits each key once |
| WatchlistManagement.WatchlistManager.HydrateEntries | core/services/arbitrage_monitor_v2/api/runtime.py:180-190 | the loop installs each loaded item in order under its normalised key |
| WatchlistManagement.WatchlistManager.LoadFromStore | core/services/arbitrage_monitor_v2/api/runtime.py:174-193 | without a store, or when `load_active_items` raises (`loadOk` false), neither the map nor the rows change; otherwise every unexpired row is present under its normalised key (merged exactly over the map when stored keys are normalised), and the expired rows are deleted when the delete succeeds |
| WatchlistManagement.WatchlistManager.Snapshot | core/services/arbitrage_monitor_v2/api/runtime.py:314-333 | one row per entry, sorted by `(symbol, exchange)` |
| Subscriptions.SubscribeStep | core/services/arbitrage_monitor_v2/api/runtime.py:355-384 | the pair is tracked afterwards exactly when it was before or every adapter call returned; other pairs are untouched |
| Subscriptions.UnsubscribeAsWritten | core/services/arbitrage_monitor_v2/api/runtime.py:386-404 | as written: the pair stays tracked exactly when it was tracked and an adapter call raised |
| Subscriptions.UnsubscribeStep | core/services/arbitrage_monitor_v2/api/runtime.py:386-404 | corrected: the pair is never tracked afterwards; other pairs are untouched |
| Subscriptions.SubscribeIdempotent | core/services/arbitrage_monitor_v2/api/runtime.py:356-358 | once a pair is tracked, a further `subscribe_pair` of it changes nothing whatever the adapter does |
| Subscriptions.UnsubscribeIdempotent | core/services/arbitrage_monitor_v2/api/runtime.py:386-404 | corrected rule: unsubscribing twice is unsubscribing once, and the next `subscribe_pair` of the pair reaches the adapter again; as written this fails after a raising adapter call (`UnsubscribeAsWrittenSticks`) |
| Subscriptions.UnsubscribeAsWrittenSticks | core/services/arbitrage_monitor_v2/api/runtime.py:399-404 | as written, a raising adapter call leaves the pair tracked, so a later `subscribe_pair` of it never reaches the adapter |
| Subscriptions.UnsubscribeAsWrittenDiffers | core/services/arbitrage_monitor_v2/api/runtime.py:386-404 | the as-written and corrected rules differ exactly on a tracked pair whose adapter call raises |
| Subscriptions.SubscribeAllTracks | core/services/arbitrage_monitor_v2/api/runtime.py:527-531 | after subscribing a list of pairs, a pair is tracked exactly when it was before, or it is listed and its adapter calls returned |
| Subscriptions.UnsubscribeAllClears | core/services/arbitrage_monitor_v2/api/runtime.py:573-577 | corrected rule: after unsubscribing a list of pairs, exactly the unlisted tracked pairs stay tracked; the as-written loop is `UnsubscribeAllAsWrittenKeeps` |
| Subscriptions.UnsubscribeAllAsWrittenKeeps | core/services/arbitrage_monitor_v2/api/runtime.py:573-577 | as written: after unsubscribing a list of pairs, a pair stays tracked exactly when it was tracked and is unlisted or had an adapter call raise, and such a raising pair is never subscribed at the adapter again |
| Subscriptions.UnsubscribeAllAgree | core/services/arbitrage_monitor_v2/api/runtime.py:573-577 | the corrected and as-written list rules agree exactly when no listed tracked pair has an adapter call raise |
| Subscriptions.SubscriptionController.constructor | core/services/arbitrage_monitor_v2/api/runtime.py:339-342 | nothing is tracked |
| Subscriptions.SubscriptionController.SubscribePair | core/services/arbitrage_monitor_v2/api/runtime.py:355-384 | the tracked set becomes `SubscribeStep` |
| Subscriptions.SubscriptionController.UnsubscribePair | core/services/arbitrage_monitor_v2/api/runtime.py:386-404 | corrected rule: the tracked set becomes `UnsubscribeStep`; as written it would become `UnsubscribeAsWritten` |
| Subscriptions.SubscriptionController.SubscribeAll | core/services/arbitrage_monitor_v2/api/runtime.py:527-531 | `subscribe_pair` of each pair in turn, each exception swallowed |
| Subscriptions.SubscriptionController.UnsubscribeAll | core/services/arbitrage_monitor_v2/api/runtime.py:573-577 | corrected rule: `unsubscribe_pair` of each pair in turn, each exception swallowed, so every listed pair is cleared; as written a raising pair stays tracked (`UnsubscribeAllAsWrittenKeeps`) |
| MonitorRuntime.KeepIn | core/services/arbitrage_monitor_v2/api/runtime.py:498 | an element is kept exactly when it is listed and in the pool |
| MonitorRuntime.KeepOut | core/services/arbitrage_monitor_v2/api/runtime.py:499-501 | an element is kept exactly when it is listed and not in the pool |
| MonitorRuntime.KeepInNoDup | core/services/arbitrage_monitor_v2/api/runtime.py:498 | filtering a list without repeats gives a list without repeats |
| MonitorRuntime.KeepOutNoDup | core/services/arbitrage_monitor_v2/api/runtime.py:499-501 | the same for the complementary filter |
| MonitorRuntime.KeepInOrder | core/services/arbitrage_monitor_v2/api/runtime.py:498 | any two kept symbols keep their relative order |
| MonitorRuntime.NoDupConcat | core/services/arbitrage_monitor_v2/api/runtime.py:498-501 | the still-active prior order followed by the new active symbols has no repeats |
| MonitorRuntime.MergeFacts | core/services/arbitrage_monitor_v2/api/runtime.py:496-502 | the analysis list holds every active symbol exactly once and nothing else |
| MonitorRuntime.MergeOrder | core/services/arbitrage_monitor_v2/api/runtime.py:497-501 | the list is the prior order filtered to the active set, followed by the active symbols not in the prior order |
| MonitorRuntime.MergeStep | core/services/arbitrage_monitor_v2/api/runtime.py:499-501 | an active symbol is already listed exactly when it was in the prior order |
| MonitorRuntime.MergeOrderIsMerge | core/services/arbitrage_monitor_v2/api/runtime.py:496-501 | that list is an order-preserving merge: still-active prior symbols first in prior order, then each other active symbol once |
| MonitorRuntime.PreNormalizedTargets | core/services/arbitrage_monitor_v2/api/runtime.py:512-521 | normalising before `add`, as `add_watch` does, gives `add` the same targets and symbol as the raw input |
| MonitorRuntime.PreNormalizedPair | core/services/arbitrage_monitor_v2/api/runtime.py:548-556 | normalising before `touch`, as `touch_watch` does, gives `touch` the same pair |
| MonitorRuntime.MonitorApiRuntime.constructor | core/services/arbitrage_monitor_v2/api/runtime.py:410-417 | an empty watchlist, nothing tracked, and the display order `DEFAULT_BASELINE_SYMBOLS` |
| MonitorRuntime.MonitorApiRuntime.RefreshSymbolsForAnalysis | core/services/arbitrage_monitor_v2/api/runtime.py:496-502 | the analysis list becomes a merge of the display order with the active symbols; the display order is kept |
| MonitorRuntime.MonitorApiRuntime.NoteSymbol | core/services/arbitrage_monitor_v2/api/runtime.py:523-524 | the symbol is appended only when absent, so the display order gains no repeats and holds the symbol |
| MonitorRuntime.MonitorApiRuntime.AddWatch | core/services/arbitrage_monitor_v2/api/runtime.py:504-538 | the watchlist and store change as `add`; the symbol joins the display order; exactly the new pairs are subscribed; the analysis list is refreshed |
| MonitorRuntime.MonitorApiRuntime.TouchWatch | core/services/arbitrage_monitor_v2/api/runtime.py:540-566 | the returned key is normalised and is the key the watchlist changes; the watchlist and store change as `touch`; the symbol joins the display order; that same pair is subscribed; the analysis list is refreshed |
| MonitorRuntime.MonitorApiRuntime.RemoveWatch | core/services/arbitrage_monitor_v2/api/runtime.py:568-579 | corrected rule for the unsubscribes: the watchlist and store change as `remove`; exactly the removed pairs are unsubscribed, and as written a removed pair whose adapter call raises would stay tracked; the display order is kept; the analysis list is refreshed |
| MonitorRuntime.MonitorApiRuntime.ResetWatchlistTtl | core/services/arbitrage_monitor_v2/api/runtime.py:581-584 | the watchlist and store change as `reset_all_ttl`; the count of entries is returned; the analysis list is refreshed |
| MonitorRuntime.MonitorApiRuntime.PruneTick | core/services/arbitrage_monitor_v2/api/runtime.py:487-494 | corrected rule for the unsubscribes: the watchlist and store change as `prune_expired`; exactly the expired pairs are unsubscribed, and as written an expired pair whose adapter call raises would stay tracked; the analysis list is refreshed only when something expired |
| SymbolConversion.ExchangeFormat | core/services/arbitrage_monitor/utils/symbol_converter.py:31-84 | a formatting rule exists exactly for the nine supported exchanges |
| SymbolConversion.Lookup | core/services/arbitrage_monitor/utils/symbol_converter.py:196-198 | a hit exactly when the table has the key, and the hit is one of its entries |
| SymbolConversion.Reverse | core/services/arbitrage_monitor/utils/symbol_converter.py:290 | the reverse index has exactly the table's native symbols as keys |
| SymbolConversion.SeedCustom | core/services/arbitrage_monitor/utils/symbol_converter.py:173-179 | for each configured exchange, `setdefault(exchange, {})` and `update(mappings)`; a custom mapping wins by `SeedCustomWins` |
| SymbolConversion.AutoConvert | core/services/arbitrage_monitor/utils/symbol_converter.py:215-271 | `_auto_convert`, with `None` for the `KeyError` of a missing suffix; its cases are the `SymbolConversionProperties.AutoConvert*` lemmas |
| SymbolConversion.ToExchange | core/services/arbitrage_monitor/utils/symbol_converter.py:182-213 | the override of the lower-cased exchange, else the input for an unknown exchange, else `_auto_convert`, else the input on an exception; see `ToExchangePrecedence` |
| SymbolConversion.InferHyperliquid | core/services/arbitrage_monitor/utils/symbol_converter.py:325-344 | `BASE/QUOTE[:TYPE]` read back to the canonical form; see `InferHyperliquidParses` |
| SymbolConversion.InferBinance | core/services/arbitrage_monitor/utils/symbol_converter.py:345-361 | `BASE/QUOTE[:TYPE]`, or a base followed by USDT, USDC or BUSD; see `InferBinanceParses` |
| SymbolConversion.InferOkx | core/services/arbitrage_monitor/utils/symbol_converter.py:362-371 | `BASE-QUOTE-...-SWAP`, USDT read as USDC; see `InferOkxSwap` |
| SymbolConversion.InferGrvt | core/services/arbitrage_monitor/utils/symbol_converter.py:372-386 | `BASE_QUOTE_TYPE` with `-` and `/` read as `_`; see `InferGrvtUsdcPerp` |
| SymbolConversion.Infer | core/services/arbitrage_monitor/utils/symbol_converter.py:303-394 | the per-exchange inference; `SymbolRoundTrip.InferUsdcPerp` inverts formatting, and the `SymbolRoundTrip.Infer*FallsBack` lemmas give the unchanged fall-throughs |
| SymbolConversion.FromExchange | core/services/arbitrage_monitor/utils/symbol_converter.py:273-394 | the reverse index of the lower-cased exchange, else inference; see `SymbolRoundTrip.FromExchangeShipped` |
| SymbolConversion.SimpleSymbolConverter.ConvertToExchange | core/services/arbitrage_monitor/utils/symbol_converter.py:182-213 | `ToExchange` on the converter's own tables |
| SymbolConversion.SimpleSymbolConverter.constructor | core/services/arbitrage_monitor/utils/symbol_converter.py:138-179 | the shipped tables seeded with the custom mappings, and no reverse index |
| SymbolConversion.SimpleSymbolConverter.ConvertFromExchange | core/services/arbitrage_monitor/utils/symbol_converter.py:273-394 | builds the reverse index when absent, leaves the tables alone, and returns `FromExchange` |
| SymbolConversion.SimpleSymbolConverter.AddMapping | core/services/arbitrage_monitor/utils/symbol_converter.py:396-412 | the lower-cased exchange's table gets the entry (created or overwritten) and the reverse index is dropped |
| SymbolConversionProperties.AssignSpec | core/services/arbitrage_monitor/utils/symbol_converter.py:408 | dictionary assignment: a new key is appended, an existing key is overwritten in place |
| SymbolConversionProperties.AssignLookup | core/services/arbitrage_monitor/utils/symbol_converter.py:408 | after `table[key] = value` the key maps to `value` |
| SymbolConversionProperties.AssignKeys | core/services/arbitrage_monitor/utils/symbol_converter.py:408 | every entry after the assignment is for `key` or was already there |
| SymbolConversionProperties.AssignKeepsUniqueKeys | core/services/arbitrage_monitor/utils/symbol_converter.py:408 | assignment keeps each key once |
| SymbolConversionProperties.AssignLookupOther | core/services/arbitrage_monitor/utils/symbol_converter.py:408 | assignment changes no other key |
| SymbolConversionProperties.AssignIdempotent | core/services/arbitrage_monitor/utils/symbol_converter.py:408 | assigning the same entry twice is assigning it once |
| SymbolConversionProperties.ReverseLastWins | core/services/arbitrage_monitor/utils/symbol_converter.py:290 | a native symbol reverses to the key of the last entry with that value |
| SymbolConversionProperties.ReverseFinds | core/services/arbitrage_monitor/utils/symbol_converter.py:290 | with distinct native symbols, each entry's native symbol reverses to its key |
| SymbolConversionProperties.LookupEntry | core/services/arbitrage_monitor/utils/symbol_converter.py:196-198 | a lookup hit names an entry of the table |
| SymbolConversionProperties.OverrideRoundTrip | core/services/arbitrage_monitor/utils/symbol_converter.py:287-297 | for a canonical symbol in a table with distinct native symbols, converting to the exchange and back gives it back |
| SymbolConversionProperties.AssignReverse | core/services/arbitrage_monitor/utils/symbol_converter.py:408-412 | after an assignment the reverse index sends the value back to its key, unless another key already had that value |
| SymbolConversionProperties.AddMappingTakesEffect | core/services/arbitrage_monitor/utils/symbol_converter.py:396-412 | after `add_mapping`, `convert_to_exchange` returns the new native symbol, and `convert_from_exchange` gives back the canonical one when no other key had that native symbol |
| SymbolConversionProperties.AddMappingOtherExchanges | core/services/arbitrage_monitor/utils/symbol_converter.py:405-408 | `add_mapping` leaves both conversions for every other exchange unchanged |
| SymbolConversionProperties.AddMappingIdempotent | core/services/arbitrage_monitor/utils/symbol_converter.py:405-408 | `add_mapping` twice is `add_mapping` once |
| SymbolConversionProperties.ToExchangePrecedence | core/services/arbitrage_monitor/utils/symbol_converter.py:193-205 | an override wins verbatim; without one, an exchange without a rule gets its input back; the exchange name is lower-cased first |
| SymbolConversionProperties.AutoConvertTooFewParts | core/services/arbitrage_monitor/utils/symbol_converter.py:218-220 | a symbol without `-` comes back unchanged |
| SymbolConversionProperties.AutoConvertTypeDefaultsToSpot | core/services/arbitrage_monitor/utils/symbol_converter.py:222-224 | `BASE-QUOTE` converts as `BASE-QUOTE-SPOT` |
| SymbolConversionProperties.CanonicalParts | core/services/arbitrage_monitor/utils/symbol_converter.py:218-224 | `BASE-QUOTE-TYPE` splits into its three parts |
| SymbolConversionProperties.AutoConvertBaseOnly | core/services/arbitrage_monitor/utils/symbol_converter.py:229-230 | lighter and variational keep just BASE |
| SymbolConversionProperties.AutoConvertHyperliquid | core/services/arbitrage_monitor/utils/symbol_converter.py:233-241 | hyperliquid quotes in USDC: PERP gives `BASE/USDC:USDC`, SPOT gives `BASE/USDC:SPOT`, any other type `BASE/USDC` |
| SymbolConversionProperties.AutoConvertBinancePerp | core/services/arbitrage_monitor/utils/symbol_converter.py:245-249 | a binance PERP gives `BASE/Q:Q` with USDC mapped to USDT |
| SymbolConversionProperties.AutoConvertGeneric | core/services/arbitrage_monitor/utils/symbol_converter.py:252-271 | generic assembly: map the quote, rewrite USDC to USD for edgex and paradex, then `base + separator + quote + suffix` with the PERP or spot suffix |
| SymbolConversionProperties.AutoConvertTotal | core/services/arbitrage_monitor/utils/symbol_converter.py:262-263 | the shipped rules never lack the suffix a symbol needs, so `_auto_convert` never raises for a supported exchange |
| SymbolConversionProperties.UpdateTableLookup | core/services/arbitrage_monitor/utils/symbol_converter.py:179 | `update(mappings)` keeps the table a dictionary; a key of `mappings` takes its value from there, every other key keeps its own |
| SymbolConversionProperties.SeedCustomTable | core/services/arbitrage_monitor/utils/symbol_converter.py:174-179 | with distinct configured exchange names, a named exchange's table becomes the shipped one updated by its mappings, and an unnamed exchange keeps its table |
| SymbolConversionProperties.SeedCustomWins | core/services/arbitrage_monitor/utils/symbol_converter.py:174-179 | for any configuration with distinct exchange names, a mapping configured for a lower-case exchange wins over the shipped one in `convert_to_exchange` |
| SymbolConversionProperties.SeedCustomOthers | core/services/arbitrage_monitor/utils/symbol_converter.py:174-179 | an exchange the configuration does not name converts exactly as before seeding |
| SymbolRoundTrip.AutoConvertUsdcPerp | core/services/arbitrage_monitor/utils/symbol_converter.py:215-271 | `_auto_convert` writes `B-USDC-PERP` in each supported exchange's native form |
| SymbolRoundTrip.AutoConvertUsdcPerpUsd | core/services/arbitrage_monitor/utils/symbol_converter.py:252-271 | the same for backpack, edgex and paradex |
| SymbolRoundTrip.AutoConvertUsdcPerpUsdt | core/services/arbitrage_monitor/utils/symbol_converter.py:252-271 | the same for okx and grvt |
| SymbolRoundTrip.CutAtSlash | core/services/arbitrage_monitor/utils/symbol_converter.py:327-329 | `B/REST` strips to itself and splits at its first `/` |
| SymbolRoundTrip.CutAtColon | core/services/arbitrage_monitor/utils/symbol_converter.py:332-333 | `Q:Q` splits at its `:` |
| SymbolRoundTrip.HyperliquidCanonicalUsdcPerp | core/services/arbitrage_monitor/utils/symbol_converter.py:334-341 | quote USDC with type USDC reads as `B-USDC-PERP` |
| SymbolRoundTrip.InferHyperliquidParses | core/services/arbitrage_monitor/utils/symbol_converter.py:325-344 | hyperliquid inference parses `B/Q:T` into base, quote and type |
| SymbolRoundTrip.InferHyperliquidUsdcPerp | core/services/arbitrage_monitor/utils/symbol_converter.py:325-341 | `B/USDC:USDC` reads as `B-USDC-PERP` |
| SymbolRoundTrip.InferBinanceParses | core/services/arbitrage_monitor/utils/symbol_converter.py:345-357 | binance inference reads `B/Q:T` as `B-Q'-PERP`, USDT rewritten to USDC |
| SymbolRoundTrip.InferBinanceUsdcPerp | core/services/arbitrage_monitor/utils/symbol_converter.py:345-357 | `B/USDT:USDT` reads as `B-USDC-PERP` |
| SymbolRoundTrip.OkxParts | core/services/arbitrage_monitor/utils/symbol_converter.py:364-365 | `B-USDT-SWAP` splits into `B`, `USDT`, `SWAP` |
| SymbolRoundTrip.InferOkxUsdcPerp | core/services/arbitrage_monitor/utils/symbol_converter.py:362-371 | `B-USDT-SWAP` reads as `B-USDC-PERP` |
| SymbolRoundTrip.InferOkxSwap | core/services/arbitrage_monitor/utils/symbol_converter.py:362-371 | `B-Q-SWAP` reads as `B-Q'-PERP`, USDT rewritten to USDC |
| SymbolRoundTrip.GrvtParts | core/services/arbitrage_monitor/utils/symbol_converter.py:374-375 | `B_USDT_Perp` splits into `B`, `USDT`, `Perp` |
| SymbolRoundTrip.InferGrvtUsdcPerp | core/services/arbitrage_monitor/utils/symbol_converter.py:372-385 | `B_USDT_Perp` reads as `B-USDC-PERP` |
| SymbolRoundTrip.InferParadexUsdcPerp | core/services/arbitrage_monitor/utils/symbol_converter.py:314-322 | `B-USD-PERP` reads as `B-USDC-PERP` |
| SymbolRoundTrip.InferBackpackUsdcPerp | core/services/arbitrage_monitor/utils/symbol_converter.py:311-313 | `B_USDC_PERP` reads as `B-USDC-PERP` (each `_` becomes `-`) |
| SymbolRoundTrip.InferEdgexUsdcPerp | core/services/arbitrage_monitor/utils/symbol_converter.py:306-310 | `BUSD` reads as `B-USDC-PERP` |
| SymbolRoundTrip.InferVariationalUsdcPerp | core/services/arbitrage_monitor/utils/symbol_converter.py:387-391 | an alphanumeric `B` reads as `B-USDC-PERP` |
| SymbolRoundTrip.InferUsdcPerp | core/services/arbitrage_monitor/utils/symbol_converter.py:303-391 | inference reads every supported exchange's native USDC perpetual back as `B-USDC-PERP` |
| SymbolRoundTrip.InferFallsBack | core/services/arbitrage_monitor/utils/symbol_converter.py:303-324 | what cannot be inferred comes back unchanged: an unknown exchange; edgex without the `USD` ending; paradex with fewer than three `-` parts (none at all, or two) |
| SymbolRoundTrip.InferHyperliquidFallsBack | core/services/arbitrage_monitor/utils/symbol_converter.py:325-327 | hyperliquid gives back a symbol without `/` once stripped |
| SymbolRoundTrip.InferBinanceFallsBack | core/services/arbitrage_monitor/utils/symbol_converter.py:345-361 | binance gives back a symbol without `/` and without a USDT, USDC or BUSD ending after a non-empty base, once stripped and upper-cased |
| SymbolRoundTrip.InferOkxFallsBack | core/services/arbitrage_monitor/utils/symbol_converter.py:362-371 | okx gives back a symbol with fewer than three parts or no trailing `SWAP`, once stripped and upper-cased |
| SymbolRoundTrip.InferGrvtFallsBack | core/services/arbitrage_monitor/utils/symbol_converter.py:372-386 | grvt gives back a symbol with fewer than three parts once `-` and `/` are read as `_` |
| SymbolRoundTrip.InferVariationalFallsBack | core/services/arbitrage_monitor/utils/symbol_converter.py:387-391 | variational gives back a symbol that is empty or not alphanumeric once stripped and upper-cased |
| SymbolRoundTrip.PerpTableLookup | core/services/arbitrage_monitor/utils/symbol_converter.py:87-134 | a shipped table sends `B-USDC-PERP`, when it lists it, to `B` plus the table's suffix |
| SymbolRoundTrip.PerpTableReverse | core/services/arbitrage_monitor/utils/symbol_converter.py:87-134 | a shipped table's reverse index sends `B` plus the suffix back to `B-USDC-PERP` |
| SymbolRoundTrip.PerpTableWellFormed | core/services/arbitrage_monitor/utils/symbol_converter.py:87-134 | distinct bases give a table with distinct canonical keys and distinct native symbols |
| SymbolRoundTrip.ShippedTablesWellFormed | core/services/arbitrage_monitor/utils/symbol_converter.py:87-134 | every shipped table is a dictionary with distinct native symbols |
| SymbolRoundTrip.ShippedTable | core/services/arbitrage_monitor/utils/symbol_converter.py:87-134 | the shipped tables are the twelve monitored perpetuals with each exchange's suffix (paradex empty), and agree with the native form |
| SymbolRoundTrip.ToExchangeShipped | core/services/arbitrage_monitor/utils/symbol_converter.py:193-213 | with the shipped tables, `B-USDC-PERP` converts to each exchange's native form, listed in a table or not |
| SymbolRoundTrip.FromExchangeShipped | core/services/arbitrage_monitor/utils/symbol_converter.py:284-394 | with the shipped tables, each exchange's native form converts back to `B-USDC-PERP` |
| SymbolRoundTrip.ShippedRoundTrip | core/services/arbitrage_monitor/utils/symbol_converter.py:182-394 | round trip on the shipped configuration: for every ticker `B` and every supported exchange, to-exchange then from-exchange gives `B-USDC-PERP` |

## Left out

- Concurrency is not modelled: the `asyncio.Lock`, the semaphore, `to_thread` and `create_task`. Each operation runs as one sequential step.
- The sqlite connection, the WAL pragma, the table creation and the database path (`_guess_repo_root`) are I/O. The store is an abstract map of rows.
- The order in which `SELECT` returns rows, and the iteration order of dictionaries and sets, are left unspecified. Loops pick the next key arbitrarily.
- Clocks: `time.time()` is the integer parameter `now` and timestamps are integers. The model does not capture fractional seconds or `int()` truncation of a float.
- Watchlist.TtlSeconds: `ttl_seconds` reads the clock again. The model uses the snapshot's `now` for it.
- A WatchItem is modelled as a value. `add` and `reset_all_ttl` write its fields in place; the model replaces the entry in the map instead. Nothing outside the manager holds an item, so no aliasing is lost.
- `None` passed as an exchange or a symbol to `_normalize_*` is not modelled. The model takes strings only.
- Case mapping (`lower`, `upper`) and `isalnum` cover ASCII only. Other Unicode letters are left as they are.
- Store failures are a `storeOk` parameter: the write happens entirely or not at all. Log messages are not modelled.
- WatchlistManagement.WatchlistManager.LoadFromStore: a raising `load_active_items` (the read or a row conversion) is the `loadOk` parameter; the exception itself is not modelled, only that nothing changes. A failing `delete_keys` raises out of `load_from_store`, but the model keeps the loaded map and the rows. The exact merge is proved only when the stored keys are already normalised; otherwise the model states only that every unexpired row is present under its normalised key.
- The adapters, orderbook/ticker callbacks and the `MONITOR_ORDERBOOK_DEPTH` parsing with its `TypeError` fallback are foreign code. Each pair's adapter calls become one `Outcome`.
- Subscriptions.SubscriptionController.UnsubscribePair: the controller uses the corrected rule, not the code as written; see "## Findings".
- Subscriptions.UnsubscribeIdempotent: states the corrected rule. As written, after an adapter call raises, the pair stays tracked and the next `subscribe_pair` does not reach the adapter (`UnsubscribeAsWrittenSticks`).
- Subscriptions.UnsubscribeAllClears: states the corrected rule for the loops in `remove_watch` and `_prune_loop`. As written, a listed pair whose adapter call raises stays tracked (`UnsubscribeAllAsWrittenKeeps`).
- Subscriptions.SubscriptionController.UnsubscribeAll: uses the corrected rule for each pair, so a pair whose adapter call raises is cleared where the code as written keeps it tracked.
- MonitorRuntime.MonitorApiRuntime.RemoveWatch: its unsubscribes follow the corrected rule; as written, a removed pair whose `unsubscribe_orderbook` or `unsubscribe_ticker` raises stays tracked, since `remove_watch` swallows the exception.
- MonitorRuntime.MonitorApiRuntime.PruneTick: its unsubscribes follow the corrected rule; as written, an expired pair whose adapter unsubscribe raises stays tracked, since `_prune_loop` swallows the exception.
- `start`, `stop`, `health`, `set_should_accept` and the orchestrator are not part of this model. `set_symbols` is the field `analysisSymbols`, and the 10-second sleep of `_prune_loop` is left out; one round of the loop is `PruneTick`.
- MonitorRuntime.MonitorApiRuntime.AddWatch: `ttl` is an `Option<int>`, as `add` accepts a missing ttl. `add_watch` passes its argument straight through.
- The YAML custom-mapping file is I/O. It is a `custom` seed list given to the constructor; the `isinstance` checks on its contents are not modelled.
- `DIRECT_MAPPING` and the custom-mappings-loaded flag are class-level in the source, shared by every converter and seeded once per process. The model gives each converter its own tables, seeded on construction. What that loses: `add_mapping` on one converter changes the table every converter shares but drops only its own reverse index, so another converter's cached index goes stale, and a converter built later starts from the changed table. `SymbolConversion.SimpleSymbolConverter.Valid` and the constructor's contract describe a process with one converter, which is how the runtime uses it.
- Hyperliquid's `type_separator` entry is never read by the converter and is not represented.
- Default arguments are not modelled: `ttl_seconds` defaults to `DEFAULT_WATCHLIST_TTL_SECONDS` (3600) in `add`, `touch`, `add_watch` and `touch_watch`, and every model operation takes the ttl explicitly.
- `get_supported_exchanges` is the constant `SupportedExchanges`.
- app.py, web_ui.py, the benchmark tool and run_monitor_service.py are not part of this model.

## Findings

| source | as written | input that shows it | evidently intended | confidence | as-written member | corrected member |
|---|---|---|---|---|---|---|
| core/services/arbitrage_monitor_v2/api/runtime.py:386-404 | when `unsubscribe_orderbook` or `unsubscribe_ticker` raises, the exception leaves before the final `discard`, so the pair stays tracked; a later `add_watch` of the pair then never subscribes it again, even if some streams were already cancelled | a tracked pair such as `("binance", "BTC-USDC-PERP")` whose adapter unsubscribe call raises | the pair is cleared on every path, as it is when there is no adapter or the conversion raises | low; not executed | Subscriptions.UnsubscribeAsWritten | Subscriptions.UnsubscribeStep |
