/** What the symbol converter guarantees: the override tables behave as Python
    dictionaries, an override round-trips through the reverse index, `add_mapping`
    takes effect in both directions and touches no other exchange, and the
    formatting and inference rules agree on the monitored `BASE-USDC-PERP`
    symbols of every supported exchange. */
module SymbolConversionProperties {
  import opened Options
  import opened Text
  import opened SymbolConversion

  // ---------------------------------------------------------------------------
  // Override tables as dictionaries
  // ---------------------------------------------------------------------------

  /** Assignment on a dictionary: an existing key is overwritten in place, a new
      key is appended. */
  lemma {:induction false} AssignSpec(t: OverrideTable, key: string, value: string)
    requires UniqueKeys(t)
    ensures (forall i :: 0 <= i < |t| ==> t[i].0 != key) ==> Assign(t, key, value) == t + [(key, value)]
    ensures forall i :: 0 <= i < |t| && t[i].0 == key ==> Assign(t, key, value) == t[i := (key, value)]
  {
    if t != [] {
      assert UniqueKeys(t[1..]) by {
        forall i, j | 0 <= i < j < |t[1..]| ensures t[1..][i].0 != t[1..][j].0 {
          assert t[1..][i] == t[i + 1] && t[1..][j] == t[j + 1];
        }
      }
      AssignSpec(t[1..], key, value);
      if t[0].0 == key {
        forall i | 0 <= i < |t| && t[i].0 == key ensures Assign(t, key, value) == t[i := (key, value)] {
          assert i == 0;
        }
      } else {
        if forall i :: 0 <= i < |t| ==> t[i].0 != key {
          assert forall i :: 0 <= i < |t[1..]| ==> t[1..][i] == t[i + 1];
          assert [t[0]] + (t[1..] + [(key, value)]) == t + [(key, value)];
        }
        forall i | 0 <= i < |t| && t[i].0 == key ensures Assign(t, key, value) == t[i := (key, value)] {
          assert i > 0 && t[1..][i - 1] == t[i];
          assert [t[0]] + t[1..][i - 1 := (key, value)] == t[i := (key, value)];
        }
      }
    }
  }

  /** After `table[key] = value` the key maps to `value`. */
  lemma {:induction false} AssignLookup(t: OverrideTable, key: string, value: string)
    ensures Lookup(Assign(t, key, value), key) == Some(value)
  {
    if t != [] && t[0].0 != key {
      AssignLookup(t[1..], key, value);
      var r := Assign(t, key, value);
      assert r[1..] == Assign(t[1..], key, value);
    }
  }

  /** Every key of `table` after `table[key] = value` is `key` or was already there. */
  lemma {:induction false} AssignKeys(t: OverrideTable, key: string, value: string)
    ensures forall k :: 0 <= k < |Assign(t, key, value)| ==>
              Assign(t, key, value)[k].0 == key || (k < |t| && Assign(t, key, value)[k] == t[k])
  {
    if t != [] && t[0].0 != key {
      AssignKeys(t[1..], key, value);
      var r := Assign(t, key, value);
      assert r[1..] == Assign(t[1..], key, value);
      forall k | 0 <= k < |r| ensures r[k].0 == key || (k < |t| && r[k] == t[k]) {
        if k > 0 {
          assert r[k] == r[1..][k - 1];
          assert k - 1 < |t[1..]| ==> t[1..][k - 1] == t[k];
        }
      }
    }
  }

  /** `table[key] = value` keeps the table a dictionary. */
  lemma {:induction false} AssignKeepsUniqueKeys(t: OverrideTable, key: string, value: string)
    requires UniqueKeys(t)
    ensures UniqueKeys(Assign(t, key, value))
  {
    if t != [] && t[0].0 != key {
      var tl := t[1..];
      assert UniqueKeys(tl) by {
        forall i, j | 0 <= i < j < |tl| ensures tl[i].0 != tl[j].0 {
          assert tl[i] == t[i + 1] && tl[j] == t[j + 1];
        }
      }
      AssignKeepsUniqueKeys(tl, key, value);
      AssignKeys(tl, key, value);
      var rt := Assign(tl, key, value);
      var r := [t[0]] + rt;
      assert r == Assign(t, key, value);
      forall i, j | 0 <= i < j < |r| ensures r[i].0 != r[j].0 {
        assert r[j] == rt[j - 1];
        if i == 0 {
          if rt[j - 1].0 != key {
            assert rt[j - 1] == tl[j - 1] == t[j];
          }
        } else {
          assert r[i] == rt[i - 1];
        }
      }
    } else if t != [] {
      var r := [(key, value)] + t[1..];
      assert r == Assign(t, key, value);
      forall i, j | 0 <= i < j < |r| ensures r[i].0 != r[j].0 {
        if i == 0 { assert r[j] == t[j]; } else { assert r[i] == t[i] && r[j] == t[j]; }
      }
    }
  }

  /** `table[key] = value` changes no other key. */
  lemma {:induction false} AssignLookupOther(t: OverrideTable, key: string, value: string, other: string)
    requires other != key
    ensures Lookup(Assign(t, key, value), other) == Lookup(t, other)
  {
    if t != [] {
      var r := Assign(t, key, value);
      if t[0].0 == key {
        assert r[1..] == t[1..];
      } else {
        assert r[1..] == Assign(t[1..], key, value);
        AssignLookupOther(t[1..], key, value, other);
      }
    }
  }

  /** Assigning the same pair twice is assigning it once. */
  lemma AssignIdempotent(t: OverrideTable, key: string, value: string)
    requires UniqueKeys(t)
    ensures Assign(Assign(t, key, value), key, value) == Assign(t, key, value)
  {
    AssignSpec(t, key, value);
    AssignLookup(t, key, value);
    AssignKeepsUniqueKeys(t, key, value);
    var r := Assign(t, key, value);
    AssignSpec(r, key, value);
    var i :| 0 <= i < |r| && r[i] == (key, Lookup(r, key).value);
    assert r[i := (key, value)] == r;
  }

  /** The reverse index maps a native symbol to the canonical key of the LAST entry
      that has it. */
  lemma {:induction false} ReverseLastWins(t: OverrideTable, native: string)
    requires native in Reverse(t)
    ensures exists j :: 0 <= j < |t| && t[j].1 == native && Reverse(t)[native] == t[j].0
                        && forall k :: j < k < |t| ==> t[k].1 != native
  {
    var n := |t| - 1;
    var init := t[..n];
    assert Reverse(t) == Reverse(init)[t[n].1 := t[n].0];
    if t[n].1 == native {
      assert Reverse(t)[native] == t[n].0;
    } else {
      assert native in Reverse(init) && Reverse(t)[native] == Reverse(init)[native];
      ReverseLastWins(init, native);
      var j :| 0 <= j < |init| && init[j].1 == native && Reverse(init)[native] == init[j].0
                && forall k :: j < k < |init| ==> init[k].1 != native;
      assert t[j] == init[j];
      assert forall k :: j < k < n ==> t[k] == init[k];
    }
  }

  /** With distinct native symbols, every entry's native symbol reverses to its key. */
  lemma ReverseFinds(t: OverrideTable, i: nat)
    requires ValuesInjective(t) && i < |t|
    ensures t[i].1 in Reverse(t) && Reverse(t)[t[i].1] == t[i].0
  {
    ReverseLastWins(t, t[i].1);
  }

  /** A `Lookup` hit is some entry of the table. */
  lemma LookupEntry(t: OverrideTable, key: string) returns (i: nat)
    requires Lookup(t, key).Some?
    ensures i < |t| && t[i] == (key, Lookup(t, key).value)
  {
    i :| 0 <= i < |t| && t[i] == (key, Lookup(t, key).value);
  }

  /** Round trip through an override: when an exchange's table has an entry for
      `standard` and its native symbols are distinct, converting to the exchange
      and back gives `standard`. */
  lemma OverrideRoundTrip(o: Overrides, standard: string, exchange: string)
    requires ValuesInjective(TableOf(o, Lower(exchange)))
    requires Lookup(TableOf(o, Lower(exchange)), standard).Some?
    ensures FromExchange(o, ToExchange(o, standard, exchange), exchange) == standard
  {
    var ex := Lower(exchange);
    var t := TableOf(o, ex);
    var i := LookupEntry(t, standard);
    ReverseFinds(t, i);
    assert ex in o;
    assert BuildReverse(o)[ex] == Reverse(t);
  }

  // ---------------------------------------------------------------------------
  // add_mapping
  // ---------------------------------------------------------------------------

  /** The tables after `add_mapping(exchange, standard, native)`. */
  function WithMapping(o: Overrides, exchange: string, standard: string, native: string): Overrides {
    o[Lower(exchange) := Assign(TableOf(o, Lower(exchange)), standard, native)]
  }

  /** After `table[key] = value`, the reverse index maps `value` back to `key` when no
      other key of the table already had that value. */
  lemma AssignReverse(t: OverrideTable, key: string, value: string)
    requires forall i :: 0 <= i < |t| && t[i].0 != key ==> t[i].1 != value
    ensures value in Reverse(Assign(t, key, value)) && Reverse(Assign(t, key, value))[value] == key
  {
    var r := Assign(t, key, value);
    AssignLookup(t, key, value);
    var i := LookupEntry(r, key);
    assert value in Reverse(r);
    AssignKeys(t, key, value);
    ReverseLastWins(r, value);
  }

  /** After `add_mapping`, `convert_to_exchange` returns the new native symbol, and
      `convert_from_exchange` maps it back to `standard` unless another canonical
      symbol of that exchange already maps to it. */
  lemma AddMappingTakesEffect(o: Overrides, exchange: string, standard: string, native: string)
    ensures ToExchange(WithMapping(o, exchange, standard, native), standard, exchange) == native
    ensures (forall i :: 0 <= i < |TableOf(o, Lower(exchange))| && TableOf(o, Lower(exchange))[i].0 != standard
               ==> TableOf(o, Lower(exchange))[i].1 != native)
            ==> FromExchange(WithMapping(o, exchange, standard, native), native, exchange) == standard
  {
    var ex := Lower(exchange);
    var t := TableOf(o, ex);
    var o2 := WithMapping(o, exchange, standard, native);
    AssignLookup(t, standard, native);
    assert TableOf(o2, ex) == Assign(t, standard, native);
    if forall i :: 0 <= i < |t| && t[i].0 != standard ==> t[i].1 != native {
      AssignReverse(t, standard, native);
      assert BuildReverse(o2)[ex] == Reverse(Assign(t, standard, native));
    }
  }

  /** `add_mapping` on one exchange leaves every other exchange's conversions as they were. */
  lemma AddMappingOtherExchanges(o: Overrides, exchange: string, standard: string, native: string,
                                 other: string, s: string)
    requires Lower(other) != Lower(exchange)
    ensures ToExchange(WithMapping(o, exchange, standard, native), s, other) == ToExchange(o, s, other)
    ensures FromExchange(WithMapping(o, exchange, standard, native), s, other) == FromExchange(o, s, other)
  {
    var o2 := WithMapping(o, exchange, standard, native);
    assert TableOf(o2, Lower(other)) == TableOf(o, Lower(other));
    assert Lower(other) in BuildReverse(o2) <==> Lower(other) in BuildReverse(o);
  }

  /** `add_mapping` is idempotent. */
  lemma AddMappingIdempotent(o: Overrides, exchange: string, standard: string, native: string)
    requires UniqueKeys(TableOf(o, Lower(exchange)))
    ensures WithMapping(WithMapping(o, exchange, standard, native), exchange, standard, native)
            == WithMapping(o, exchange, standard, native)
  {
    AssignIdempotent(TableOf(o, Lower(exchange)), standard, native);
  }

  // ---------------------------------------------------------------------------
  // convert_to_exchange and _auto_convert
  // ---------------------------------------------------------------------------

  /** An override wins verbatim; otherwise an exchange without a formatting rule
      gets the symbol back unchanged. The exchange name is lower-cased first. */
  lemma ToExchangePrecedence(o: Overrides, standard: string, exchange: string)
    ensures Lookup(TableOf(o, Lower(exchange)), standard).Some? ==>
              ToExchange(o, standard, exchange) == Lookup(TableOf(o, Lower(exchange)), standard).value
    ensures Lookup(TableOf(o, Lower(exchange)), standard).None? && Lower(exchange) !in SupportedExchanges ==>
              ToExchange(o, standard, exchange) == standard
    ensures ToExchange(o, standard, exchange) == ToExchange(o, standard, Lower(exchange))
  {
    LowerNoopOnLower(exchange);
  }

  lemma LowerNoopOnLower(s: string)
    ensures Lower(Lower(s)) == Lower(s)
  {
    forall i | 0 <= i < |s| ensures LowerChar(LowerChar(s[i])) == LowerChar(s[i]) {
      LowerCharFacts(s[i]);
    }
  }

  /** A symbol with fewer than two `-`-separated parts is returned unchanged by every rule. */
  lemma AutoConvertTooFewParts(standard: string, exchange: string, fmt: FormatRule)
    requires '-' !in standard
    ensures AutoConvert(standard, exchange, fmt) == Some(standard)
  {
    SplitNone(standard, '-');
  }

  /** A missing TYPE reads as SPOT. */
  lemma AutoConvertTypeDefaultsToSpot(base: string, quote: string, exchange: string, fmt: FormatRule)
    requires '-' !in base && '-' !in quote
    ensures AutoConvert(base + "-" + quote, exchange, fmt) == AutoConvert(base + "-" + quote + "-SPOT", exchange, fmt)
  {
    SplitTwo(base, quote, '-');
    SplitThree(base, quote, "SPOT", '-');
    assert Split(base + "-" + quote, '-') == [base, quote];
    assert Split(base + "-" + quote + "-SPOT", '-') == [base, quote, "SPOT"] by {
      assert base + "-" + quote + "-SPOT" == base + "-" + quote + "-" + "SPOT";
    }
  }

  /** The parts of `BASE-QUOTE-TYPE`. */
  lemma CanonicalParts(base: string, quote: string, typ: string)
    requires '-' !in base && '-' !in quote && '-' !in typ
    ensures Split(base + "-" + quote + "-" + typ, '-') == [base, quote, typ]
  {
    SplitThree(base, quote, typ, '-');
  }

  /** Base-only exchanges (lighter, variational) keep just BASE. */
  lemma AutoConvertBaseOnly(base: string, quote: string, typ: string, exchange: string)
    requires '-' !in base && '-' !in quote && '-' !in typ
    requires exchange == "lighter" || exchange == "variational"
    ensures AutoConvert(base + "-" + quote + "-" + typ, exchange, ExchangeFormat(exchange).value) == Some(base)
  {
    CanonicalParts(base, quote, typ);
  }

  /** Hyperliquid always quotes in USDC: PERP gives `BASE/USDC:USDC`, SPOT gives
      `BASE/USDC:SPOT`, any other type `BASE/USDC`. */
  lemma AutoConvertHyperliquid(base: string, quote: string, typ: string)
    requires '-' !in base && '-' !in quote && '-' !in typ
    ensures var r := AutoConvert(base + "-" + quote + "-" + typ, "hyperliquid", ExchangeFormat("hyperliquid").value);
            r == Some(if typ == "PERP" then base + "/USDC:USDC"
                      else if typ == "SPOT" then base + "/USDC:SPOT"
                      else base + "/USDC")
  {
    CanonicalParts(base, quote, typ);
    assert base + "/USDC:USDC" == base + "/" + "USDC" + ":" + "USDC";
    assert base + "/USDC:SPOT" == base + "/" + "USDC" + ":" + "SPOT";
    assert base + "/USDC" == base + "/" + "USDC";
  }

  /** Binance PERP: `BASE/Q:Q` with the quote mapped, so USDC becomes USDT. */
  lemma AutoConvertBinancePerp(base: string, quote: string)
    requires '-' !in base && '-' !in quote
    ensures var q := if quote == "USDC" then "USDT" else quote;
            AutoConvert(base + "-" + quote + "-PERP", "binance", ExchangeFormat("binance").value)
              == Some(base + "/" + q + ":" + q)
  {
    CanonicalParts(base, quote, "PERP");
    assert base + "-" + quote + "-PERP" == base + "-" + quote + "-" + "PERP";
  }

  /** Generic assembly: map the quote, rewrite USDC to USD for edgex and paradex,
      then `BASE + separator + QUOTE + suffix`, the perp suffix for PERP and the spot
      suffix otherwise. */
  lemma AutoConvertGeneric(base: string, quote: string, typ: string, exchange: string)
    requires '-' !in base && '-' !in quote && '-' !in typ
    requires exchange in ["backpack", "edgex", "paradex", "binance", "okx", "grvt"]
    requires exchange == "binance" ==> typ != "PERP"
    ensures var fmt := ExchangeFormat(exchange).value;
            var q0 := MapQuote(fmt.quoteMap, quote);
            var q := if (exchange == "edgex" || exchange == "paradex") && q0 == "USDC" then "USD" else q0;
            var suffix := if typ == "PERP" then fmt.perpSuffix.value else fmt.spotSuffix.value;
            AutoConvert(base + "-" + quote + "-" + typ, exchange, fmt) == Some(base + fmt.separator + q + suffix)
  {
    CanonicalParts(base, quote, typ);
  }

  /** The shipped rules give every supported exchange both suffixes it needs, so
      `_auto_convert` never raises on them. */
  lemma AutoConvertTotal(standard: string, exchange: string)
    requires exchange in SupportedExchanges
    ensures AutoConvert(standard, exchange, ExchangeFormat(exchange).value).Some?
  {
  }

  // ---------------------------------------------------------------------------
  // The custom-mapping seed
  // ---------------------------------------------------------------------------

  /** `table.update(mappings)` gives every key of `mappings` its value there and
      leaves every other key as it was; the result is still a dictionary. */
  lemma {:induction false} UpdateTableLookup(t: OverrideTable, mappings: OverrideTable, key: string)
    requires UniqueKeys(t) && UniqueKeys(mappings)
    ensures UniqueKeys(UpdateTable(t, mappings))
    ensures Lookup(UpdateTable(t, mappings), key)
            == if Lookup(mappings, key).Some? then Lookup(mappings, key) else Lookup(t, key)
    decreases |mappings|
  {
    if mappings != [] {
      var k := mappings[0].0;
      var t1 := Assign(t, k, mappings[0].1);
      var rest := mappings[1..];
      AssignKeepsUniqueKeys(t, k, mappings[0].1);
      assert UniqueKeys(rest) by {
        forall i, j | 0 <= i < j < |rest| ensures rest[i].0 != rest[j].0 {
          assert rest[i] == mappings[i + 1] && rest[j] == mappings[j + 1];
        }
      }
      UpdateTableLookup(t1, rest, key);
      if key == k {
        AssignLookup(t, k, mappings[0].1);
        assert Lookup(rest, key).None? by {
          forall i | 0 <= i < |rest| ensures rest[i].0 != key {
            assert rest[i] == mappings[i + 1];
          }
        }
      } else {
        AssignLookupOther(t, k, mappings[0].1, key);
        assert Lookup(mappings, key) == Lookup(rest, key);
      }
    }
  }

  /** The keys of the configuration's `standard_to_exchange` mapping are distinct
      exchange names. */
  predicate DistinctExchanges(custom: seq<(string, OverrideTable)>) {
    forall i, j :: 0 <= i < j < |custom| ==> custom[i].0 != custom[j].0
  }

  /** After seeding, an exchange the configuration names has its table updated
      by that exchange's mappings, and every other exchange keeps its table. */
  lemma {:induction false} SeedCustomTable(o: Overrides, custom: seq<(string, OverrideTable)>, exchange: string)
    requires DistinctExchanges(custom)
    ensures (forall j :: 0 <= j < |custom| ==> custom[j].0 != exchange)
            ==> TableOf(SeedCustom(o, custom), exchange) == TableOf(o, exchange)
    ensures forall j :: 0 <= j < |custom| && custom[j].0 == exchange ==>
              TableOf(SeedCustom(o, custom), exchange) == UpdateTable(TableOf(o, exchange), custom[j].1)
    decreases |custom|
  {
    if custom != [] {
      var ex := custom[0].0;
      var o1 := o[ex := UpdateTable(TableOf(o, ex), custom[0].1)];
      var rest := custom[1..];
      assert DistinctExchanges(rest) by {
        forall i, j | 0 <= i < j < |rest| ensures rest[i].0 != rest[j].0 {
          assert rest[i] == custom[i + 1] && rest[j] == custom[j + 1];
        }
      }
      SeedCustomTable(o1, rest, exchange);
      assert SeedCustom(o, custom) == SeedCustom(o1, rest);
      if ex == exchange {
        forall j | 0 <= j < |rest| ensures rest[j].0 != exchange {
          assert rest[j] == custom[j + 1];
        }
        forall j | 0 <= j < |custom| && custom[j].0 == exchange ensures j == 0 {
        }
      } else {
        forall j | 0 <= j < |custom| && custom[j].0 == exchange
          ensures TableOf(SeedCustom(o, custom), exchange) == UpdateTable(TableOf(o, exchange), custom[j].1)
        {
          assert custom[j] == rest[j - 1];
        }
        if forall j :: 0 <= j < |custom| ==> custom[j].0 != exchange {
          forall j | 0 <= j < |rest| ensures rest[j].0 != exchange {
            assert rest[j] == custom[j + 1];
          }
        }
      }
    }
  }

  /** A seeded entry wins over the shipped one: once the configuration maps
      `standard` on the (lower-case) exchange it names at position `i`,
      `convert_to_exchange` returns the configured native symbol; an exchange the
      configuration does not name converts as it did before seeding. */
  lemma SeedCustomWins(o: Overrides, custom: seq<(string, OverrideTable)>, i: nat, standard: string)
    requires DistinctExchanges(custom)
    requires i < |custom| && Lower(custom[i].0) == custom[i].0
    requires UniqueKeys(TableOf(o, custom[i].0)) && UniqueKeys(custom[i].1)
    requires Lookup(custom[i].1, standard).Some?
    ensures ToExchange(SeedCustom(o, custom), standard, custom[i].0) == Lookup(custom[i].1, standard).value
  {
    SeedCustomTable(o, custom, custom[i].0);
    UpdateTableLookup(TableOf(o, custom[i].0), custom[i].1, standard);
  }

  /** Seeding leaves alone every exchange the configuration does not name. */
  lemma SeedCustomOthers(o: Overrides, custom: seq<(string, OverrideTable)>, standard: string, exchange: string)
    requires DistinctExchanges(custom)
    requires forall j :: 0 <= j < |custom| ==> custom[j].0 != Lower(exchange)
    ensures ToExchange(SeedCustom(o, custom), standard, exchange) == ToExchange(o, standard, exchange)
  {
    SeedCustomTable(o, custom, Lower(exchange));
  }
}
