/** The shipped formatting rules, inference branches and override tables agree:
    every monitored `BASE-USDC-PERP` market converts to each exchange's native
    symbol and back. */
module SymbolRoundTrip {
  import opened Options
  import opened Text
  import opened SymbolConversion
  import opened SymbolConversionProperties

  // ---------------------------------------------------------------------------
  // The monitored BASE-USDC-PERP symbols on every exchange
  // ---------------------------------------------------------------------------

  /** A base asset ticker: upper-case letters and digits. */
  predicate IsTicker(b: string) {
    |b| > 0 && forall i :: 0 <= i < |b| ==> ('A' <= b[i] <= 'Z') || ('0' <= b[i] <= '9')
  }

  /** The canonical perpetual `BASE-USDC-PERP`. */
  function UsdcPerp(b: string): string {
    b + "-USDC-PERP"
  }

  /** How each exchange writes the USDC perpetual on `b`. */
  function NativeUsdcPerp(b: string, exchange: string): string {
    if exchange == "hyperliquid" then b + "/" + "USDC" + ":" + "USDC"
    else if exchange == "backpack" then b + "_USDC_PERP"
    else if exchange == "edgex" then b + "USD"
    else if exchange == "paradex" then b + "-USD-PERP"
    else if exchange == "binance" then b + "/" + "USDT" + ":" + "USDT"
    else if exchange == "okx" then b + "-USDT-SWAP"
    else if exchange == "grvt" then b + "_USDT_Perp"
    else b
  }

  lemma TickerFacts(b: string)
    requires IsTicker(b)
    ensures '-' !in b && '/' !in b && ':' !in b && '_' !in b
    ensures Upper(b) == b && IsAlnum(b)
    ensures !IsSpace(b[0]) && !IsSpace(b[|b| - 1])
  {
    UpperNoop(b);
  }

  /** `_auto_convert` writes `b-USDC-PERP` in each exchange's native form. */
  lemma AutoConvertUsdcPerp(b: string, exchange: string)
    requires IsTicker(b) && exchange in SupportedExchanges
    ensures AutoConvert(UsdcPerp(b), exchange, ExchangeFormat(exchange).value) == Some(NativeUsdcPerp(b, exchange))
  {
    TickerFacts(b);
    CanonicalParts(b, "USDC", "PERP");
    assert UsdcPerp(b) == b + "-" + "USDC" + "-" + "PERP";
    if exchange == "backpack" || exchange == "edgex" || exchange == "paradex" {
      AutoConvertUsdcPerpUsd(b, exchange);
    } else if exchange == "okx" || exchange == "grvt" {
      AutoConvertUsdcPerpUsdt(b, exchange);
    }
  }

  /** The joined formats that keep USDC or write USD. */
  lemma AutoConvertUsdcPerpUsd(b: string, exchange: string)
    requires IsTicker(b) && (exchange == "backpack" || exchange == "edgex" || exchange == "paradex")
    ensures AutoConvert(UsdcPerp(b), exchange, ExchangeFormat(exchange).value) == Some(NativeUsdcPerp(b, exchange))
  {
    TickerFacts(b);
    CanonicalParts(b, "USDC", "PERP");
    assert UsdcPerp(b) == b + "-" + "USDC" + "-" + "PERP";
    assert b + "_USDC_PERP" == b + "_" + "USDC" + "_PERP";
    assert b + "USD" == b + "" + "USD" + "";
    assert b + "-USD-PERP" == b + "-" + "USD" + "-PERP";
  }

  /** The joined formats that map USDC to USDT. */
  lemma AutoConvertUsdcPerpUsdt(b: string, exchange: string)
    requires IsTicker(b) && (exchange == "okx" || exchange == "grvt")
    ensures AutoConvert(UsdcPerp(b), exchange, ExchangeFormat(exchange).value) == Some(NativeUsdcPerp(b, exchange))
  {
    TickerFacts(b);
    CanonicalParts(b, "USDC", "PERP");
    assert UsdcPerp(b) == b + "-" + "USDC" + "-" + "PERP";
    assert b + "-USDT-SWAP" == b + "-" + "USDT" + "-SWAP";
    assert b + "_USDT_Perp" == b + "_" + "USDT" + "_Perp";
  }

  /** `BASE/REST` splits at its first `/`. */
  lemma CutAtSlash(b: string, rest: string)
    requires IsTicker(b) && |rest| > 0 && !IsSpace(rest[|rest| - 1])
    ensures Strip(b + "/" + rest) == b + "/" + rest
    ensures '/' in b + "/" + rest && SplitOnce(b + "/" + rest, '/') == (b, rest)
  {
    TickerFacts(b);
    var s := b + "/" + rest;
    StripNoop(s);
    assert s == b + ['/'] + rest;
    SplitOnceAt(b, rest, '/');
  }

  /** `Q:Q` splits at its `:`. */
  lemma CutAtColon(q: string)
    requires q == "USDC" || q == "USDT"
    ensures ':' in q + ":" + q && SplitOnce(q + ":" + q, ':') == (q, q)
    ensures Upper(q) == q
  {
    assert q + ":" + q == q + [':'] + q;
    SplitOnceAt(q, q, ':');
    UpperNoop(q);
  }

  lemma HyperliquidCanonicalUsdcPerp(b: string)
    requires IsTicker(b)
    ensures HyperliquidCanonical(b, "USDC", "USDC") == UsdcPerp(b)
  {
    TickerFacts(b);
    UpperNoop("USDC");
    assert b + "-" + "USDC" + "-PERP" == UsdcPerp(b);
  }

  /** Hyperliquid inference parses what `BASE/QUOTE:TYPE` formatting writes. */
  lemma InferHyperliquidParses(b: string, q: string, t: string)
    requires IsTicker(b) && IsTicker(q) && IsTicker(t)
    ensures InferHyperliquid(b + "/" + q + ":" + t) == HyperliquidCanonical(b, q, t)
  {
    TickerFacts(q);
    TickerFacts(t);
    var rest := q + ":" + t;
    assert b + "/" + q + ":" + t == b + "/" + rest;
    CutAtSlash(b, rest);
    assert rest == q + [':'] + t;
    SplitOnceAt(q, t, ':');
  }

  lemma InferHyperliquidUsdcPerp(b: string)
    requires IsTicker(b)
    ensures InferHyperliquid(b + "/" + "USDC" + ":" + "USDC") == UsdcPerp(b)
  {
    InferHyperliquidParses(b, "USDC", "USDC");
    HyperliquidCanonicalUsdcPerp(b);
  }

  /** Binance inference parses what `BASE/QUOTE:TYPE` formatting writes. */
  lemma InferBinanceParses(b: string, q: string, t: string)
    requires IsTicker(b) && IsTicker(q) && IsTicker(t)
    ensures InferBinance(b + "/" + q + ":" + t) == b + "-" + (if q == "USDT" then "USDC" else q) + "-PERP"
  {
    TickerFacts(b);
    TickerFacts(q);
    TickerFacts(t);
    var rest := q + ":" + t;
    var s := b + "/" + rest;
    assert b + "/" + q + ":" + t == s;
    CutAtSlash(b, rest);
    UpperNoop(s);
    assert rest == q + [':'] + t;
    SplitOnceAt(q, t, ':');
  }

  lemma InferBinanceUsdcPerp(b: string)
    requires IsTicker(b)
    ensures InferBinance(b + "/" + "USDT" + ":" + "USDT") == UsdcPerp(b)
  {
    InferBinanceParses(b, "USDT", "USDT");
    UsdcPerpParts(b);
  }

  lemma UsdcPerpParts(b: string)
    ensures UsdcPerp(b) == b + "-" + "USDC" + "-PERP"
  {
  }

  /** What OKX inference splits `b-USDT-SWAP` into. */
  lemma OkxParts(b: string)
    requires IsTicker(b)
    ensures Split(Upper(Strip(b + "-USDT-SWAP")), '-') == [b, "USDT", "SWAP"]
  {
    TickerFacts(b);
    var s := b + "-USDT-SWAP";
    StripNoop(s);
    UpperNoop(s);
    CanonicalParts(b, "USDT", "SWAP");
    assert s == b + "-" + "USDT" + "-" + "SWAP";
  }

  lemma InferOkxUsdcPerp(b: string)
    requires IsTicker(b)
    ensures InferOkx(b + "-USDT-SWAP") == UsdcPerp(b)
  {
    OkxParts(b);
  }

  /** What GRVT inference splits `b_USDT_Perp` into. */
  lemma GrvtParts(b: string)
    requires IsTicker(b)
    ensures Split(ReplaceChar(ReplaceChar(Strip(b + "_USDT_Perp"), '-', '_'), '/', '_'), '_') == [b, "USDT", "Perp"]
  {
    TickerFacts(b);
    var s := b + "_USDT_Perp";
    StripNoop(s);
    ReplaceCharNoop(s, '-', '_');
    ReplaceCharNoop(s, '/', '_');
    assert s == b + ['_'] + "USDT" + ['_'] + "Perp";
    SplitThree(b, "USDT", "Perp", '_');
  }

  lemma InferGrvtUsdcPerp(b: string)
    requires IsTicker(b)
    ensures InferGrvt(b + "_USDT_Perp") == UsdcPerp(b)
  {
    var s := b + "_USDT_Perp";
    GrvtParts(b);
    TickerFacts(b);
    GrvtWords();
    var parts := Split(ReplaceChar(ReplaceChar(Strip(s), '-', '_'), '/', '_'), '_');
    assert parts == [b, "USDT", "Perp"];
    assert Upper(parts[0]) == b && Upper(parts[1]) == "USDT" && Upper(parts[2]) == "PERP";
    assert InferGrvt(s) == b + "-" + "USDC" + "-PERP";
    UsdcPerpParts(b);
  }

  lemma GrvtWords()
    ensures Upper("USDT") == "USDT" && Upper("Perp") == "PERP"
  {
    UpperNoop("USDT");
    assert Upper("Perp") == "PERP";
  }

  lemma InferParadexUsdcPerp(b: string)
    requires IsTicker(b)
    ensures Infer(b + "-USD-PERP", "paradex") == UsdcPerp(b)
  {
    TickerFacts(b);
    var s := b + "-USD-PERP";
    CanonicalParts(b, "USD", "PERP");
    assert s == b + "-" + "USD" + "-" + "PERP";
    assert Split(s, '-') == [b, "USD", "PERP"];
    assert Infer(s, "paradex") == b + "-" + "USDC" + "-" + "PERP";
  }

  lemma InferBackpackUsdcPerp(b: string)
    requires IsTicker(b)
    ensures Infer(b + "_USDC_PERP", "backpack") == UsdcPerp(b)
  {
    TickerFacts(b);
    ReplaceCharConcat(b, "_USDC_PERP", '_', '-');
    ReplaceCharNoop(b, '_', '-');
  }

  lemma InferEdgexUsdcPerp(b: string)
    requires IsTicker(b)
    ensures Infer(b + "USD", "edgex") == UsdcPerp(b)
  {
    var s := b + "USD";
    assert s[|s| - 3..] == "USD";
    assert s[..|s| - 3] == b;
  }

  lemma InferVariationalUsdcPerp(b: string)
    requires IsTicker(b)
    ensures Infer(b, "variational") == UsdcPerp(b)
  {
    TickerFacts(b);
    StripNoop(b);
  }

  /** Inference reads every exchange's native USDC perpetual back as `b-USDC-PERP`:
      formatting and inference are inverse on the monitored markets. */
  lemma InferUsdcPerp(b: string, exchange: string)
    requires IsTicker(b) && exchange in SupportedExchanges
    ensures Infer(NativeUsdcPerp(b, exchange), exchange) == UsdcPerp(b)
  {
    if exchange == "hyperliquid" { InferHyperliquidUsdcPerp(b); }
    else if exchange == "binance" { InferBinanceUsdcPerp(b); }
    else if exchange == "okx" { InferOkxUsdcPerp(b); }
    else if exchange == "grvt" { InferGrvtUsdcPerp(b); }
    else if exchange == "paradex" { InferParadexUsdcPerp(b); }
    else if exchange == "backpack" { InferBackpackUsdcPerp(b); }
    else if exchange == "edgex" { InferEdgexUsdcPerp(b); }
    else if exchange == "variational" { InferVariationalUsdcPerp(b); }
  }

  // ---------------------------------------------------------------------------
  // The shipped override tables
  // ---------------------------------------------------------------------------

  lemma CancelSuffix(x: string, y: string, z: string)
    requires x + z == y + z
    ensures x == y
  {
    assert |x| == |y|;
    assert x == (x + z)[..|x|] && y == (y + z)[..|y|];
  }

  /** A shipped table sends `b-USDC-PERP`, if it lists it, to `b + suffix`. */
  lemma PerpTableLookup(bases: seq<string>, suffix: string, b: string)
    requires Lookup(PerpTable(bases, suffix), UsdcPerp(b)).Some?
    ensures Lookup(PerpTable(bases, suffix), UsdcPerp(b)).value == b + suffix
  {
    var t := PerpTable(bases, suffix);
    var i := LookupEntry(t, UsdcPerp(b));
    CancelSuffix(bases[i], b, "-USDC-PERP");
  }

  /** A shipped table's reverse index sends `b + suffix`, if it holds it, back to `b-USDC-PERP`. */
  lemma PerpTableReverse(bases: seq<string>, suffix: string, b: string)
    requires b + suffix in Reverse(PerpTable(bases, suffix))
    ensures Reverse(PerpTable(bases, suffix))[b + suffix] == UsdcPerp(b)
  {
    var t := PerpTable(bases, suffix);
    ReverseLastWins(t, b + suffix);
    var j :| 0 <= j < |t| && t[j].1 == b + suffix && Reverse(t)[b + suffix] == t[j].0;
    CancelSuffix(bases[j], b, suffix);
  }

  /** Distinct bases give a table with distinct canonical keys and distinct native symbols. */
  lemma PerpTableWellFormed(bases: seq<string>, suffix: string)
    requires forall i, j :: 0 <= i < j < |bases| ==> bases[i] != bases[j]
    ensures UniqueKeys(PerpTable(bases, suffix)) && ValuesInjective(PerpTable(bases, suffix))
  {
    var t := PerpTable(bases, suffix);
    forall i, j | 0 <= i < j < |t| ensures t[i].0 != t[j].0 && t[i].1 != t[j].1 {
      if t[i].0 == t[j].0 { CancelSuffix(bases[i], bases[j], "-USDC-PERP"); }
      if t[i].1 == t[j].1 { CancelSuffix(bases[i], bases[j], suffix); }
    }
  }

  /** The shipped tables are dictionaries whose native symbols are distinct. */
  lemma ShippedTablesWellFormed(exchange: string)
    ensures UniqueKeys(TableOf(DirectMapping, exchange)) && ValuesInjective(TableOf(DirectMapping, exchange))
  {
    assert forall i, j :: 0 <= i < j < |MonitoredBases| ==> MonitoredBases[i] != MonitoredBases[j];
    PerpTableWellFormed(MonitoredBases, "_USDC_PERP");
    PerpTableWellFormed(MonitoredBases, "");
    PerpTableWellFormed(MonitoredBases, "USD");
  }

  lemma SupportedLower(exchange: string)
    requires exchange in SupportedExchanges
    ensures Lower(exchange) == exchange
  {
    LowerNoop(exchange);
  }

  /** The shipped tables' suffix for each exchange that has a table. */
  function TableSuffix(exchange: string): string {
    if exchange == "backpack" then "_USDC_PERP" else if exchange == "edgex" then "USD" else ""
  }

  lemma ShippedTable(b: string, exchange: string)
    requires exchange in SupportedExchanges
    ensures exchange in DirectMapping && exchange != "paradex" ==>
              DirectMapping[exchange] == PerpTable(MonitoredBases, TableSuffix(exchange))
              && NativeUsdcPerp(b, exchange) == b + TableSuffix(exchange)
    ensures exchange == "paradex" ==> DirectMapping[exchange] == []
    ensures exchange !in DirectMapping ==> TableOf(DirectMapping, exchange) == []
  {
  }

  /** With the shipped tables, `convert_to_exchange` writes every monitored-style
      `b-USDC-PERP` in the exchange's native form, whether a table entry or the
      formatting rule produces it. */
  lemma ToExchangeShipped(b: string, exchange: string)
    requires IsTicker(b) && exchange in SupportedExchanges
    ensures ToExchange(DirectMapping, UsdcPerp(b), exchange) == NativeUsdcPerp(b, exchange)
  {
    SupportedLower(exchange);
    ShippedTable(b, exchange);
    AutoConvertUsdcPerp(b, exchange);
    var t := TableOf(DirectMapping, exchange);
    if Lookup(t, UsdcPerp(b)).Some? && exchange != "paradex" {
      PerpTableLookup(MonitoredBases, TableSuffix(exchange), b);
    }
  }

  /** With the shipped tables, `convert_from_exchange` reads every exchange's native
      USDC perpetual back as `b-USDC-PERP`, whether the reverse index or inference
      answers. */
  lemma FromExchangeShipped(b: string, exchange: string)
    requires IsTicker(b) && exchange in SupportedExchanges
    ensures FromExchange(DirectMapping, NativeUsdcPerp(b, exchange), exchange) == UsdcPerp(b)
  {
    SupportedLower(exchange);
    ShippedTable(b, exchange);
    InferUsdcPerp(b, exchange);
    var rev := BuildReverse(DirectMapping);
    var native := NativeUsdcPerp(b, exchange);
    if exchange in rev && native in rev[exchange] && exchange != "paradex" {
      PerpTableReverse(MonitoredBases, TableSuffix(exchange), b);
    }
  }

  /** Round trip on the shipped configuration: for every ticker `b` and every
      supported exchange, converting `b-USDC-PERP` to the exchange and back gives
      `b-USDC-PERP`. */
  lemma ShippedRoundTrip(b: string, exchange: string)
    requires IsTicker(b) && exchange in SupportedExchanges
    ensures FromExchange(DirectMapping, ToExchange(DirectMapping, UsdcPerp(b), exchange), exchange) == UsdcPerp(b)
  {
    ToExchangeShipped(b, exchange);
    FromExchangeShipped(b, exchange);
  }

  // ---------------------------------------------------------------------------
  // Inference outside the monitored markets
  // ---------------------------------------------------------------------------

  /** What cannot be inferred comes back unchanged: an unknown exchange; an edgex
      symbol without the `USD` ending; a paradex symbol with fewer than three `-`
      parts (one without `-` in particular). */
  lemma InferFallsBack(s: string, exchange: string)
    ensures exchange !in SupportedExchanges ==> Infer(s, exchange) == s
    ensures !EndsWith(s, "USD") ==> Infer(s, "edgex") == s
    ensures |Split(s, '-')| < 3 ==> Infer(s, "paradex") == s
    ensures '-' !in s ==> Infer(s, "paradex") == s
  {
    if '-' !in s {
      SplitNone(s, '-');
    }
  }

  /** Hyperliquid gives back a symbol without `/` once stripped. */
  lemma InferHyperliquidFallsBack(s: string)
    requires '/' !in Strip(s)
    ensures Infer(s, "hyperliquid") == s
  {
  }

  /** Binance gives back a symbol without `/` and without a USDT, USDC or BUSD
      ending after a base, once stripped and upper-cased. */
  lemma InferBinanceFallsBack(s: string)
    requires '/' !in Upper(Strip(s))
    requires !EndsWith(Upper(Strip(s)), "USDT") || |Upper(Strip(s))| <= 4
    requires !EndsWith(Upper(Strip(s)), "USDC") || |Upper(Strip(s))| <= 4
    requires !EndsWith(Upper(Strip(s)), "BUSD") || |Upper(Strip(s))| <= 4
    ensures Infer(s, "binance") == s
  {
    assert Infer(s, "binance") == InferBinance(s);
  }

  /** OKX gives back a symbol with fewer than three parts or no trailing `SWAP`,
      once stripped and upper-cased. */
  lemma InferOkxFallsBack(s: string)
    requires var parts := Split(Upper(Strip(s)), '-');
             |parts| < 3 || parts[|parts| - 1] != "SWAP"
    ensures Infer(s, "okx") == s
  {
  }

  /** GRVT gives back a symbol with fewer than three parts once `-` and `/` are
      read as `_`. */
  lemma InferGrvtFallsBack(s: string)
    requires |Split(ReplaceChar(ReplaceChar(Strip(s), '-', '_'), '/', '_'), '_')| < 3
    ensures Infer(s, "grvt") == s
  {
  }

  /** Variational gives back a symbol that is empty or not alphanumeric once
      stripped and upper-cased. */
  lemma InferVariationalFallsBack(s: string)
    requires !IsAlnum(Upper(Strip(s)))
    ensures Infer(s, "variational") == s
  {
  }

  /** OKX: `B-Q-SWAP` reads as `B-Q'-PERP`, USDT rewritten to USDC. */
  lemma InferOkxSwap(b: string, q: string)
    requires IsTicker(b) && IsTicker(q)
    ensures InferOkx(b + "-" + q + "-SWAP") == b + "-" + (if q == "USDT" then "USDC" else q) + "-PERP"
  {
    TickerFacts(b);
    TickerFacts(q);
    var s := b + "-" + q + "-SWAP";
    assert s == b + "-" + q + "-" + "SWAP";
    StripNoop(s);
    UpperNoop(s);
    CanonicalParts(b, q, "SWAP");
  }
}
