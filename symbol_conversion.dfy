/** Canonical <-> exchange-native symbol conversion (`SimpleSymbolConverter`).
    The canonical form is `BASE-QUOTE-TYPE` (`BTC-USDC-PERP`); each of nine
    exchanges has its own native form. A per-exchange override table
    (`DIRECT_MAPPING`) wins over the per-exchange formatting rule
    (`EXCHANGE_FORMATS`); the reverse direction consults a reverse index of
    the override table first and otherwise infers the canonical form. */
module SymbolConversion {
  import opened Options
  import opened Text

  // ---------------------------------------------------------------------------
  // EXCHANGE_FORMATS
  // ---------------------------------------------------------------------------

  /** One entry of `EXCHANGE_FORMATS`. A key the source's dictionary lacks is
      `None` (`quote_map` absent is the empty map, `base_only` absent is false).
      Hyperliquid's `type_separator` is never read by the converter and is not
      represented. */
  datatype FormatRule = FormatRule(
    separator: string,
    perpSuffix: Option<string>,
    spotSuffix: Option<string>,
    quoteMap: map<string, string>,
    baseOnly: bool,
    defaultQuote: Option<string>,
    perpType: Option<string>,
    spotType: Option<string>)

  /** An entry with `separator`, `perp_suffix`, `spot_suffix` and perhaps `quote_map`. */
  function Suffixed(separator: string, perpSuffix: string, spotSuffix: string,
                    quoteMap: map<string, string>, baseOnly: bool): FormatRule
  {
    FormatRule(separator, Some(perpSuffix), Some(spotSuffix), quoteMap, baseOnly, None, None, None)
  }

  /** The exchanges `EXCHANGE_FORMATS` knows. */
  const SupportedExchanges: seq<string> :=
    ["hyperliquid", "backpack", "lighter", "edgex", "paradex", "binance", "okx", "grvt", "variational"]

  /** `EXCHANGE_FORMATS.get(exchange)`. */
  function ExchangeFormat(exchange: string): (r: Option<FormatRule>)
    ensures r.Some? <==> exchange in SupportedExchanges
  {
    if exchange == "hyperliquid" then
      Some(FormatRule("/", None, None, map[], false, Some("USDC"), Some("USDC"), Some("SPOT")))
    else if exchange == "backpack" then Some(Suffixed("_", "_PERP", "", map[], false))
    else if exchange == "lighter" then Some(Suffixed("", "", "", map[], true))
    else if exchange == "edgex" then Some(Suffixed("", "", "", map[], false))
    else if exchange == "paradex" then Some(Suffixed("-", "-PERP", "", map[], false))
    else if exchange == "binance" then Some(Suffixed("", "", "", map["USDC" := "USDT"], false))
    else if exchange == "okx" then Some(Suffixed("-", "-SWAP", "", map["USDC" := "USDT"], false))
    else if exchange == "grvt" then Some(Suffixed("_", "_Perp", "", map["USDC" := "USDT"], false))
    else if exchange == "variational" then Some(Suffixed("", "", "", map[], true))
    else None
  }

  /** `quote_map.get(quote, quote)`. */
  function MapQuote(quoteMap: map<string, string>, quote: string): string {
    if quote in quoteMap then quoteMap[quote] else quote
  }

  // ---------------------------------------------------------------------------
  // DIRECT_MAPPING: the override tables
  // ---------------------------------------------------------------------------

  /** One exchange's override dictionary in insertion order, as `(canonical, native)`
      pairs; the order decides which key the reverse index keeps for a repeated value. */
  type OverrideTable = seq<(string, string)>

  /** `DIRECT_MAPPING`: exchange name to its override table. */
  type Overrides = map<string, OverrideTable>

  /** A Python dictionary holds each key once. */
  predicate UniqueKeys(t: OverrideTable) {
    forall i, j :: 0 <= i < j < |t| ==> t[i].0 != t[j].0
  }

  /** No two canonical symbols share a native symbol. */
  predicate ValuesInjective(t: OverrideTable) {
    forall i, j :: 0 <= i < j < |t| ==> t[i].1 != t[j].1
  }

  /** `table.get(key)`. */
  function Lookup(t: OverrideTable, key: string): (r: Option<string>)
    ensures r.Some? <==> exists i :: 0 <= i < |t| && t[i].0 == key
    ensures r.Some? ==> exists i :: 0 <= i < |t| && t[i] == (key, r.value)
  {
    if t == [] then None
    else if t[0].0 == key then Some(t[0].1)
    else
      var r := Lookup(t[1..], key);
      assert forall i :: 1 <= i < |t| ==> t[i] == t[1..][i - 1];
      r
  }

  /** `table[key] = value`: the value of an existing key is replaced in place,
      a new key goes to the end. */
  function Assign(t: OverrideTable, key: string, value: string): OverrideTable {
    if t == [] then [(key, value)]
    else if t[0].0 == key then [(key, value)] + t[1..]
    else [t[0]] + Assign(t[1..], key, value)
  }

  /** `{v: k for k, v in table.items()}`: a later entry wins on a repeated value. */
  function Reverse(t: OverrideTable): (r: map<string, string>)
    ensures r.Keys == set i | 0 <= i < |t| :: t[i].1
  {
    if t == [] then map[]
    else
      var init := t[..|t| - 1];
      var r := Reverse(init)[t[|t| - 1].1 := t[|t| - 1].0];
      assert forall i :: 0 <= i < |t| - 1 ==> t[i] == init[i];
      r
  }

  /** The reverse index built from every exchange's table. */
  function BuildReverse(o: Overrides): map<string, map<string, string>> {
    map ex | ex in o :: Reverse(o[ex])
  }

  /** `DIRECT_MAPPING.get(exchange, {})`. */
  function TableOf(o: Overrides, exchange: string): OverrideTable {
    if exchange in o then o[exchange] else []
  }

  /** `table.update(mappings)`: each entry of `mappings` assigned in order. */
  function UpdateTable(t: OverrideTable, mappings: OverrideTable): OverrideTable
    decreases |mappings|
  {
    if mappings == [] then t
    else UpdateTable(Assign(t, mappings[0].0, mappings[0].1), mappings[1..])
  }

  /** The one-time seed from the custom-mapping configuration: for each listed
      exchange (as written, not lower-cased) `setdefault(exchange, {})` and then
      `update(mappings)`. */
  function SeedCustom(o: Overrides, custom: seq<(string, OverrideTable)>): Overrides
    decreases |custom|
  {
    if custom == [] then o
    else
      var ex := custom[0].0;
      SeedCustom(o[ex := UpdateTable(TableOf(o, ex), custom[0].1)], custom[1..])
  }

  /** The twelve monitored base assets, in the order the shipped tables list them. */
  const MonitoredBases: seq<string> :=
    ["BTC", "ETH", "SOL", "DOGE", "AVAX", "LINK", "UNI", "CRV", "ADA", "AAVE", "HYPE", "NEAR"]

  /** A shipped table: `BASE-USDC-PERP` maps to `BASE + nativeSuffix` for every base. */
  function PerpTable(bases: seq<string>, nativeSuffix: string): OverrideTable {
    seq(|bases|, i requires 0 <= i < |bases| => (bases[i] + "-USDC-PERP", bases[i] + nativeSuffix))
  }

  /** The shipped `DIRECT_MAPPING` (paradex has an empty placeholder table). */
  const DirectMapping: Overrides := map[
    "backpack" := PerpTable(MonitoredBases, "_USDC_PERP"),
    "lighter" := PerpTable(MonitoredBases, ""),
    "edgex" := PerpTable(MonitoredBases, "USD"),
    "paradex" := []]

  // ---------------------------------------------------------------------------
  // convert_to_exchange / _auto_convert
  // ---------------------------------------------------------------------------

  /** `_auto_convert` for an exchange whose rule is `fmt`. `None` is the
      `KeyError` a rule without the needed suffix would raise. */
  function AutoConvert(standard: string, exchange: string, fmt: FormatRule): Option<string> {
    var parts := Split(standard, '-');
    if |parts| < 2 then Some(standard)
    else
      var base := parts[0];
      var quote := parts[1];
      var marketType := if |parts| > 2 then parts[2] else "SPOT";
      if fmt.baseOnly then Some(base)
      else if exchange == "hyperliquid" then
        // fmt.get('default_quote', quote) or quote
        var q := if fmt.defaultQuote.Some? && fmt.defaultQuote.value != "" then fmt.defaultQuote.value else quote;
        if marketType == "PERP" then Some(base + "/" + q + ":" + fmt.perpType.GetOr("USDC"))
        else if marketType == "SPOT" then Some(base + "/" + q + ":" + fmt.spotType.GetOr("SPOT"))
        else Some(base + "/" + q)
      else if exchange == "binance" && marketType == "PERP" then
        var q := MapQuote(fmt.quoteMap, quote);
        Some(base + "/" + q + ":" + q)
      else
        var q0 := MapQuote(fmt.quoteMap, quote);
        var q := if (exchange == "edgex" || exchange == "paradex") && q0 == "USDC" then "USD" else q0;
        var suffix := if marketType == "PERP" then fmt.perpSuffix else fmt.spotSuffix;
        // with an empty separator the source's two assembly branches coincide
        if suffix.None? then None else Some(base + fmt.separator + q + suffix.value)
  }

  /** `convert_to_exchange(standard, exchange)` against the override tables `o`. */
  function ToExchange(o: Overrides, standard: string, exchange: string): string {
    var ex := Lower(exchange);
    var hit := Lookup(TableOf(o, ex), standard);
    if hit.Some? then hit.value
    else match ExchangeFormat(ex)
      case None => standard
      case Some(fmt) => AutoConvert(standard, ex, fmt).GetOr(standard)
  }

  // ---------------------------------------------------------------------------
  // convert_from_exchange: reverse index, then inference
  // ---------------------------------------------------------------------------

  /** `rest.split(':', 1)` when `rest` holds a `:`; otherwise `rest` and no type. */
  function CutType(rest: string): (string, string) {
    if ':' in rest then SplitOnce(rest, ':') else (rest, "")
  }

  /** Hyperliquid's canonical form from the parsed base, quote and type (`""` when absent). */
  function HyperliquidCanonical(base: string, quote: string, typ: string): string {
    var q := if Upper(quote) == "USD" then "USDC" else Upper(quote);
    if typ == "" then Upper(base) + "-" + q + "-SPOT"
    else
      var t := Upper(typ);
      if t == "USDC" || t == "PERP" || t == "SWAP" then Upper(base) + "-" + q + "-PERP"
      else if t == "SPOT" then Upper(base) + "-" + q + "-SPOT"
      else Upper(base) + "-" + q + "-" + t
  }

  /** Hyperliquid: `BASE/QUOTE[:TYPE]`. */
  function InferHyperliquid(s: string): string {
    var sym := Strip(s);
    if '/' !in sym then s
    else
      var cut := SplitOnce(sym, '/');
      var quoteAndType := CutType(cut.1);
      HyperliquidCanonical(cut.0, quoteAndType.0, quoteAndType.1)
  }

  /** Binance: `BASE/QUOTE[:TYPE]`, or `BASE` followed by USDT, USDC or BUSD. */
  function InferBinance(s: string): string {
    var sym := Upper(Strip(s));
    if '/' in sym then
      var cut := SplitOnce(sym, '/');
      var quotePart := Upper(CutType(cut.1).0);
      Upper(cut.0) + "-" + (if quotePart == "USDT" then "USDC" else quotePart) + "-PERP"
    else if EndsWith(sym, "USDT") && |sym| > 4 then sym[..|sym| - 4] + "-USDC-PERP"
    else if EndsWith(sym, "USDC") && |sym| > 4 then sym[..|sym| - 4] + "-USDC-PERP"
    else if EndsWith(sym, "BUSD") && |sym| > 4 then sym[..|sym| - 4] + "-USDC-PERP"
    else s
  }

  /** OKX: `BASE-QUOTE-...-SWAP`. */
  function InferOkx(s: string): string {
    var parts := Split(Upper(Strip(s)), '-');
    if |parts| >= 3 && parts[|parts| - 1] == "SWAP" then
      parts[0] + "-" + (if parts[1] == "USDT" then "USDC" else parts[1]) + "-PERP"
    else s
  }

  /** GRVT: `BASE_QUOTE_TYPE`, with `-` and `/` read as `_`. */
  function InferGrvt(s: string): string {
    var parts := Split(ReplaceChar(ReplaceChar(Strip(s), '-', '_'), '/', '_'), '_');
    if |parts| >= 3 then
      var base := Upper(parts[0]);
      var quote := Upper(parts[1]);
      var typRaw := parts[2];
      var typ := Upper(typRaw);
      var q := if quote == "USDT" then "USDC" else quote;
      if typ == "PERP" || typ == "PERPETUAL" || Lower(typRaw) == "perp" || StartsWith(typ, "PERP") then
        base + "-" + q + "-PERP"
      else base + "-" + q + "-" + typ
    else s
  }

  /** The inference step of `convert_from_exchange` for the lower-cased exchange `ex`;
      whatever cannot be inferred comes back unchanged. */
  function Infer(s: string, ex: string): string {
    if ex == "lighter" then s + "-USDC-PERP"
    else if ex == "edgex" then
      if EndsWith(s, "USD") then s[..|s| - 3] + "-USDC-PERP" else s
    else if ex == "backpack" then ReplaceChar(s, '_', '-')
    else if ex == "paradex" then
      var parts := Split(s, '-');
      if |parts| >= 3 then parts[0] + "-" + (if parts[1] == "USD" then "USDC" else parts[1]) + "-" + parts[2]
      else s
    else if ex == "hyperliquid" then InferHyperliquid(s)
    else if ex == "binance" then InferBinance(s)
    else if ex == "okx" then InferOkx(s)
    else if ex == "grvt" then InferGrvt(s)
    else if ex == "variational" then
      var sym := Upper(Strip(s));
      if IsAlnum(sym) then sym + "-USDC-PERP" else s
    else s
  }

  /** `convert_from_exchange(s, exchange)` against the override tables `o`. */
  function FromExchange(o: Overrides, s: string, exchange: string): string {
    var ex := Lower(exchange);
    var rev := BuildReverse(o);
    if ex in rev && s in rev[ex] then rev[ex][s] else Infer(s, ex)
  }

  // ---------------------------------------------------------------------------
  // The converter object: the override tables and the lazily built reverse index
  // ---------------------------------------------------------------------------

  class SimpleSymbolConverter {
    var directMapping: Overrides
    /** `_reverse_mapping`; `None` while the attribute does not exist. */
    var reverseMapping: Option<map<string, map<string, string>>>

    /** A cached reverse index is the one the current tables give. */
    ghost predicate Valid()
      reads this
    {
      reverseMapping.Some? ==> reverseMapping.value == BuildReverse(directMapping)
    }

    /** `custom` is the custom-mapping configuration, empty when there is none. */
    constructor (custom: seq<(string, OverrideTable)>)
      ensures Valid()
      ensures directMapping == SeedCustom(DirectMapping, custom) && reverseMapping == None
    {
      directMapping := SeedCustom(DirectMapping, custom);
      reverseMapping := None;
    }

    /** `convert_to_exchange`. */
    function ConvertToExchange(standard: string, exchange: string): string
      reads this
    {
      ToExchange(directMapping, standard, exchange)
    }

    /** `convert_from_exchange`: builds the reverse index on first use, then looks up
        the native symbol, then infers. */
    method ConvertFromExchange(s: string, exchange: string) returns (r: string)
      requires Valid()
      modifies this
      ensures Valid() && reverseMapping.Some?
      ensures directMapping == old(directMapping)
      ensures r == FromExchange(directMapping, s, exchange)
    {
      var ex := Lower(exchange);
      if reverseMapping.None? {
        var built: map<string, map<string, string>> := map[];
        var todo := directMapping.Keys;
        while todo != {}
          invariant todo <= directMapping.Keys
          invariant built.Keys == directMapping.Keys - todo
          invariant forall e :: e in built ==> built[e] == Reverse(directMapping[e])
          decreases todo
        {
          var e :| e in todo;
          built := built[e := Reverse(directMapping[e])];
          todo := todo - {e};
        }
        assert built == BuildReverse(directMapping);
        reverseMapping := Some(built);
      }
      var rev := reverseMapping.value;
      if ex in rev && s in rev[ex] {
        r := rev[ex][s];
      } else {
        r := Infer(s, ex);
      }
    }

    /** `add_mapping`: install or overwrite one override and drop the reverse index. */
    method AddMapping(exchange: string, standard: string, native: string)
      modifies this
      ensures Valid() && reverseMapping == None
      ensures directMapping == old(directMapping)[Lower(exchange) :=
        Assign(TableOf(old(directMapping), Lower(exchange)), standard, native)]
    {
      var ex := Lower(exchange);
      var table := if ex in directMapping then directMapping[ex] else [];
      directMapping := directMapping[ex := Assign(table, standard, native)];
      reverseMapping := None;
    }
  }
}
