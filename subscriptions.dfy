/** `SubscriptionController`: the set of `(exchange, symbol)` pairs the
    controller believes are subscribed at their exchange adapter. What the
    adapter does is abstracted to the outcome of one call: no adapter for the
    exchange, a symbol conversion that raises, an adapter call that raises, or
    every call returning normally. */
module Subscriptions {
  import opened Watchlist

  datatype Outcome = NoAdapter | ConvertFails | AdapterFails | Completes

  /** `subscribe_pair`: a tracked pair is left alone (the adapter is not asked
      again); otherwise the pair becomes tracked exactly when every adapter
      call returned. */
  function SubscribeStep(subscribed: set<Key>, key: Key, outcome: Outcome): (r: set<Key>)
    ensures key in r <==> key in subscribed || outcome == Completes
    ensures forall k :: k != key ==> (k in r <==> k in subscribed)
  {
    if key in subscribed then subscribed
    else if outcome == Completes then subscribed + {key}
    else subscribed
  }

  /** Whether `subscribe_pair` goes on to the adapter: only for a pair it does not
      already track. */
  predicate SubscribeCallsAdapter(subscribed: set<Key>, key: Key) {
    key !in subscribed
  }

  /** `unsubscribe_pair` as written: the pair is discarded when there is no
      adapter, when the conversion raises, and after the adapter calls return;
      when an adapter call raises, the exception leaves before the final
      `discard` and the pair stays tracked. */
  function UnsubscribeAsWritten(subscribed: set<Key>, key: Key, outcome: Outcome): (r: set<Key>)
    ensures key in r <==> key in subscribed && outcome == AdapterFails
    ensures forall k :: k != key ==> (k in r <==> k in subscribed)
  {
    if outcome == AdapterFails then subscribed else subscribed - {key}
  }

  /** `unsubscribe_pair` with the discard on every path. */
  function UnsubscribeStep(subscribed: set<Key>, key: Key, outcome: Outcome): (r: set<Key>)
    ensures key !in r
    ensures forall k :: k != key ==> (k in r <==> k in subscribed)
  {
    subscribed - {key}
  }

  /** Subscribing is idempotent: once a pair is tracked, every further
      `subscribe_pair` of it changes nothing, whatever the adapter would do. */
  lemma SubscribeIdempotent(subscribed: set<Key>, key: Key, first: Outcome, second: Outcome)
    ensures key in SubscribeStep(subscribed, key, Completes)
    ensures SubscribeStep(SubscribeStep(subscribed, key, Completes), key, second)
            == SubscribeStep(subscribed, key, Completes)
    ensures SubscribeStep(SubscribeStep(subscribed, key, first), key, second)
            == SubscribeStep(subscribed, key, if first == Completes then first else second)
  {
  }

  /** Unsubscribing is idempotent and forgets the pair whatever the adapter does,
      so the next `subscribe_pair` of the pair reaches the adapter again. */
  lemma UnsubscribeIdempotent(subscribed: set<Key>, key: Key, first: Outcome, second: Outcome)
    ensures UnsubscribeStep(UnsubscribeStep(subscribed, key, first), key, second)
            == UnsubscribeStep(subscribed, key, first)
    ensures SubscribeCallsAdapter(UnsubscribeStep(subscribed, key, first), key)
    ensures SubscribeStep(UnsubscribeStep(subscribed, key, first), key, Completes)
            == subscribed + {key}
  {
  }

  /** As written, an unsubscribe whose adapter call raises leaves the pair
      tracked, so re-adding the pair later never subscribes it at the adapter
      again. */
  lemma UnsubscribeAsWrittenSticks()
    ensures var k: Key := ("binance", "BTC-USDC-PERP");
            var after := UnsubscribeAsWritten({k}, k, AdapterFails);
            k in after && !SubscribeCallsAdapter(after, k)
            && SubscribeStep(after, k, Completes) == after
  {
  }

  /** The as-written version and the corrected one differ exactly on the
      raising adapter call of a tracked pair. */
  lemma UnsubscribeAsWrittenDiffers(subscribed: set<Key>, key: Key, outcome: Outcome)
    ensures UnsubscribeAsWritten(subscribed, key, outcome) == UnsubscribeStep(subscribed, key, outcome)
            <==> outcome != AdapterFails || key !in subscribed
  {
    if outcome == AdapterFails && key in subscribed {
      assert key in UnsubscribeAsWritten(subscribed, key, outcome);
    }
  }

  /** The tracked set after `subscribe_pair` of each pair in turn, the adapter
      calls for pair `k` having outcome `outcome(k)`. */
  function SubscribeAllStep(subscribed: set<Key>, pairs: seq<Key>, outcome: Key -> Outcome): set<Key>
    decreases |pairs|
  {
    if pairs == [] then subscribed
    else
      var n := |pairs| - 1;
      SubscribeStep(SubscribeAllStep(subscribed, pairs[..n], outcome), pairs[n], outcome(pairs[n]))
  }

  /** After subscribing a list of pairs, a pair is tracked exactly when it was
      before, or it is in the list and its adapter calls returned. */
  lemma {:induction false} SubscribeAllTracks(subscribed: set<Key>, pairs: seq<Key>, outcome: Key -> Outcome)
    ensures forall k :: k in SubscribeAllStep(subscribed, pairs, outcome)
                        <==> k in subscribed || (k in pairs && outcome(k) == Completes)
    decreases |pairs|
  {
    if pairs != [] {
      var n := |pairs| - 1;
      SubscribeAllTracks(subscribed, pairs[..n], outcome);
      assert pairs == pairs[..n] + [pairs[n]];
    }
  }

  /** The tracked set after `unsubscribe_pair` of each pair in turn. */
  function UnsubscribeAllStep(subscribed: set<Key>, pairs: seq<Key>, outcome: Key -> Outcome): set<Key>
    decreases |pairs|
  {
    if pairs == [] then subscribed
    else
      var n := |pairs| - 1;
      UnsubscribeStep(UnsubscribeAllStep(subscribed, pairs[..n], outcome), pairs[n], outcome(pairs[n]))
  }

  /** After unsubscribing a list of pairs, exactly the pairs not in the list stay
      tracked. */
  lemma {:induction false} UnsubscribeAllClears(subscribed: set<Key>, pairs: seq<Key>, outcome: Key -> Outcome)
    ensures forall k :: k in UnsubscribeAllStep(subscribed, pairs, outcome) <==> k in subscribed && k !in pairs
    decreases |pairs|
  {
    if pairs != [] {
      var n := |pairs| - 1;
      UnsubscribeAllClears(subscribed, pairs[..n], outcome);
      assert pairs == pairs[..n] + [pairs[n]];
    }
  }

  /** The tracked set after `unsubscribe_pair` as written of each pair in turn,
      each call's exception swallowed by the caller, as `remove_watch` and the
      prune loop do. */
  function UnsubscribeAllAsWritten(subscribed: set<Key>, pairs: seq<Key>, outcome: Key -> Outcome): set<Key>
    decreases |pairs|
  {
    if pairs == [] then subscribed
    else
      var n := |pairs| - 1;
      UnsubscribeAsWritten(UnsubscribeAllAsWritten(subscribed, pairs[..n], outcome), pairs[n], outcome(pairs[n]))
  }

  /** As written, unsubscribing a list of pairs leaves tracked exactly the pairs
      that were tracked and are either not in the list or had an adapter call
      raise; such a pair is never subscribed at the adapter again. */
  lemma {:induction false} UnsubscribeAllAsWrittenKeeps(subscribed: set<Key>, pairs: seq<Key>, outcome: Key -> Outcome)
    ensures forall k :: k in UnsubscribeAllAsWritten(subscribed, pairs, outcome)
                        <==> k in subscribed && (k !in pairs || outcome(k) == AdapterFails)
    ensures forall k :: k in subscribed && k in pairs && outcome(k) == AdapterFails
                        ==> !SubscribeCallsAdapter(UnsubscribeAllAsWritten(subscribed, pairs, outcome), k)
    decreases |pairs|
  {
    if pairs != [] {
      var n := |pairs| - 1;
      UnsubscribeAllAsWrittenKeeps(subscribed, pairs[..n], outcome);
      assert pairs == pairs[..n] + [pairs[n]];
    }
  }

  /** The corrected list rule and the as-written one agree exactly when no
      listed tracked pair has an adapter call raise. */
  lemma UnsubscribeAllAgree(subscribed: set<Key>, pairs: seq<Key>, outcome: Key -> Outcome)
    ensures UnsubscribeAllAsWritten(subscribed, pairs, outcome) == UnsubscribeAllStep(subscribed, pairs, outcome)
            <==> forall k :: k in subscribed && k in pairs ==> outcome(k) != AdapterFails
  {
    UnsubscribeAllAsWrittenKeeps(subscribed, pairs, outcome);
    UnsubscribeAllClears(subscribed, pairs, outcome);
    var w := UnsubscribeAllAsWritten(subscribed, pairs, outcome);
    var c := UnsubscribeAllStep(subscribed, pairs, outcome);
    if w == c {
      forall k | k in subscribed && k in pairs
        ensures outcome(k) != AdapterFails
      {
        assert k !in c;
      }
    }
  }

  class SubscriptionController {
    /** `_subscribed`. */
    var subscribed: set<Key>

    constructor ()
      ensures subscribed == {}
    {
      subscribed := {};
    }

    /** `subscribe_pair`. */
    method SubscribePair(exchange: string, symbol: string, outcome: Outcome)
      modifies this
      ensures subscribed == SubscribeStep(old(subscribed), (exchange, symbol), outcome)
    {
      var key := (exchange, symbol);
      if key in subscribed {
        return;
      }
      if outcome == Completes {
        subscribed := subscribed + {key};
      }
    }

    /** `unsubscribe_pair`, discarding the pair on every path. */
    method UnsubscribePair(exchange: string, symbol: string, outcome: Outcome)
      modifies this
      ensures subscribed == UnsubscribeStep(old(subscribed), (exchange, symbol), outcome)
    {
      subscribed := subscribed - {(exchange, symbol)};
    }

    /** `subscribe_pair` for each pair of a list, each call's exception swallowed. */
    method SubscribeAll(pairs: seq<Key>, outcome: Key -> Outcome)
      modifies this
      ensures subscribed == SubscribeAllStep(old(subscribed), pairs, outcome)
    {
      var i := 0;
      while i < |pairs|
        invariant 0 <= i <= |pairs|
        invariant subscribed == SubscribeAllStep(old(subscribed), pairs[..i], outcome)
      {
        assert pairs[..i + 1][..i] == pairs[..i];
        SubscribePair(pairs[i].0, pairs[i].1, outcome(pairs[i]));
        i := i + 1;
      }
      assert pairs[..i] == pairs;
    }

    /** `unsubscribe_pair` for each pair of a list, each call's exception swallowed. */
    method UnsubscribeAll(pairs: seq<Key>, outcome: Key -> Outcome)
      modifies this
      ensures subscribed == UnsubscribeAllStep(old(subscribed), pairs, outcome)
    {
      var i := 0;
      while i < |pairs|
        invariant 0 <= i <= |pairs|
        invariant subscribed == UnsubscribeAllStep(old(subscribed), pairs[..i], outcome)
      {
        assert pairs[..i + 1][..i] == pairs[..i];
        UnsubscribePair(pairs[i].0, pairs[i].1, outcome(pairs[i]));
        i := i + 1;
      }
      assert pairs[..i] == pairs;
    }
  }
}
