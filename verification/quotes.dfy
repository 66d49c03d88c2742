/**
 * `GET /api/price`: a read-through cache of last prices and trailing EPS with live P/E.
 * The `last_price` and `trailing_eps_cache` tables are maps from symbol to (value, ts); the
 * market-data provider is a function giving, per symbol, what one lookup would yield.
 */
module Quotes {
  import opened Wrappers
  import opened Symbols

  /** Seconds a cached price stays fresh. */
  const PriceWindow: int := 60
  /** Seconds a cached trailing EPS stays fresh (six hours). */
  const EpsWindow: int := 6 * 3600

  /** A row of `last_price` or `trailing_eps_cache`; `ts` is a nullable unix time. */
  datatype CacheRow = CacheRow(value: real, ts: Option<int>)

  /** What the price step of one provider lookup yields: a quote (last price, or the last
      daily close of the history fallback), nothing, or an exception from the fallback. */
  datatype PriceLookup = Obtained(price: real) | Unavailable | HistoryRaises

  /** One provider lookup: its price outcome and its numeric `trailingEps`, if any. */
  datatype Lookup = Lookup(price: PriceLookup, trailingEps: Option<real>)

  datatype PriceResponse = PriceResponse(
    prices: map<Symbol, real>,
    trailingEps: map<Symbol, real>,
    peLive: map<Symbol, real>,
    asof: int)

  /** A row is served without refresh when `now - (ts or 0) < window`. */
  predicate IsFresh(row: CacheRow, now: int, window: int) {
    now - row.ts.GetOr(0) < window
  }

  /** The bound is strict, a NULL timestamp counts as 0, and the two windows are 60 s and 6 h. */
  lemma FreshnessBoundary(now: int, v: real)
    ensures IsFresh(CacheRow(v, Some(now - 59)), now, PriceWindow)
    ensures !IsFresh(CacheRow(v, Some(now - 60)), now, PriceWindow)
    ensures IsFresh(CacheRow(v, Some(now - 21599)), now, EpsWindow)
    ensures !IsFresh(CacheRow(v, Some(now - 21600)), now, EpsWindow)
    ensures IsFresh(CacheRow(v, None), now, PriceWindow) <==> now < 60
  {
  }

  /** The values a cache read serves for the requested symbols. */
  function Served(table: map<Symbol, CacheRow>, syms: seq<Symbol>, now: int, window: int): map<Symbol, real> {
    map s | s in syms && s in table && IsFresh(table[s], now, window) :: table[s].value
  }

  predicate Distinct(xs: seq<Symbol>) {
    forall i, j :: 0 <= i < j < |xs| ==> xs[i] != xs[j]
  }

  /** `[s for s in syms if s not in served]`: the requested symbols still to fetch, in order. */
  function Missing(syms: seq<Symbol>, served: map<Symbol, real>): (need: seq<Symbol>)
    ensures |need| <= |syms|
    ensures forall s :: s in need <==> s in syms && s !in served
  {
    if syms == [] then []
    else
      var rest := Missing(syms[1..], served);
      assert forall s :: s in syms <==> s == syms[0] || s in syms[1..];
      if syms[0] in served then rest else [syms[0]] + rest
  }

  /** Prices the refresh obtains: those of stale symbols whose lookup produced a quote. */
  function PriceFacts(needPrice: seq<Symbol>, provider: Symbol -> Lookup): map<Symbol, real> {
    map s | s in needPrice && provider(s).price.Obtained? :: provider(s).price.price
  }

  /** The history fallback raised, which abandons everything else for that symbol. */
  predicate Aborted(s: Symbol, needPrice: seq<Symbol>, provider: Symbol -> Lookup) {
    s in needPrice && provider(s).price.HistoryRaises?
  }

  /** EPS values the refresh obtains: stale ones with a numeric `trailingEps`, unless aborted. */
  function EpsFacts(needPrice: seq<Symbol>, needEps: seq<Symbol>, provider: Symbol -> Lookup): map<Symbol, real> {
    map s | s in needEps && !Aborted(s, needPrice, provider) && provider(s).trailingEps.Some? ::
      provider(s).trailingEps.value
  }

  /** The rows `INSERT OR REPLACE` writes for obtained facts: each stamped with `now`. */
  function Stamp(facts: map<Symbol, real>, now: int): map<Symbol, CacheRow> {
    map s | s in facts :: CacheRow(facts[s], Some(now))
  }

  function Restrict(m: map<Symbol, real>, keys: set<Symbol>): map<Symbol, real> {
    map s | s in m && s in keys :: m[s]
  }

  /** Visiting one more symbol adds its fact, if any, to the restricted map and its stamped rows. */
  lemma VisitStep(m: map<Symbol, real>, visited: set<Symbol>, s: Symbol, now: int,
                  base: map<Symbol, real>, rows: map<Symbol, CacheRow>)
    ensures s in m ==> base + Restrict(m, visited + {s}) == (base + Restrict(m, visited))[s := m[s]]
    ensures s in m ==>
      rows + Stamp(Restrict(m, visited + {s}), now) == (rows + Stamp(Restrict(m, visited), now))[s := CacheRow(m[s], Some(now))]
    ensures s !in m ==> Restrict(m, visited + {s}) == Restrict(m, visited)
  {
  }

  lemma RestrictAll(m: map<Symbol, real>, keys: set<Symbol>)
    requires m.Keys <= keys
    ensures Restrict(m, keys) == m
  {
  }

  lemma AppendDistinct(xs: seq<Symbol>, x: Symbol)
    requires Distinct(xs) && x !in xs
    ensures Distinct(xs + [x])
    ensures forall y :: y in xs + [x] <==> y in xs || y == x
  {
  }

  /**
   * A cache read right after the refresh serves exactly what the request returns: the
   * values that were fresh plus the facts just obtained (each written with `now`).
   */
  lemma ReadYourWrites(table: map<Symbol, CacheRow>, syms: seq<Symbol>, now: int, window: int,
                       facts: map<Symbol, real>)
    requires window > 0
    requires forall s :: s in facts ==> s in syms && s !in Served(table, syms, now, window)
    ensures Served(table + Stamp(facts, now), syms, now, window) == Served(table, syms, now, window) + facts
  {
    var after := table + Stamp(facts, now);
    var lhs := Served(after, syms, now, window);
    var rhs := Served(table, syms, now, window) + facts;
    forall s | s in syms
      ensures s in lhs <==> s in rhs
      ensures s in lhs ==> lhs[s] == rhs[s]
    {
      if s in facts {
        assert after[s] == CacheRow(facts[s], Some(now));
      }
    }
    assert lhs.Keys == rhs.Keys;
  }

  /**
   * What the refresh leaves in a symbol's cache row: a new `(value, now)` row only when a
   * fact was obtained for it, otherwise the prior row (or none) untouched.
   */
  lemma RowAfterRefresh(table: map<Symbol, CacheRow>, facts: map<Symbol, real>, now: int, s: Symbol)
    ensures s in facts ==> s in table + Stamp(facts, now) && (table + Stamp(facts, now))[s] == CacheRow(facts[s], Some(now))
    ensures s !in facts ==> (s in table + Stamp(facts, now) <==> s in table)
    ensures s !in facts && s in table ==> (table + Stamp(facts, now))[s] == table[s]
  {
  }

  /**
   * Per-symbol isolation: what is obtained for `s` depends on the lookup of `s` alone, so a
   * lookup that fails or raises for another symbol changes nothing about `s`.
   */
  lemma FailureIsolation(needPrice: seq<Symbol>, needEps: seq<Symbol>, p1: Symbol -> Lookup, p2: Symbol -> Lookup, s: Symbol)
    requires p1(s) == p2(s)
    ensures (s in PriceFacts(needPrice, p1)) == (s in PriceFacts(needPrice, p2))
    ensures s in PriceFacts(needPrice, p1) ==> PriceFacts(needPrice, p1)[s] == PriceFacts(needPrice, p2)[s]
    ensures (s in EpsFacts(needPrice, needEps, p1)) == (s in EpsFacts(needPrice, needEps, p2))
    ensures s in EpsFacts(needPrice, needEps, p1) ==> EpsFacts(needPrice, needEps, p1)[s] == EpsFacts(needPrice, needEps, p2)[s]
  {
  }

  /** An exception from the history fallback skips the symbol's EPS refresh too. */
  lemma RaiseSkipsEps(needPrice: seq<Symbol>, needEps: seq<Symbol>, provider: Symbol -> Lookup, s: Symbol)
    requires s in needPrice && provider(s).price.HistoryRaises?
    ensures s !in PriceFacts(needPrice, provider) && s !in EpsFacts(needPrice, needEps, provider)
  {
  }

  /** Steps 1 and 2: the loop that reads one cache table for every requested symbol. */
  method ServeFromCache(table: map<Symbol, CacheRow>, syms: seq<Symbol>, now: int, window: int)
    returns (served: map<Symbol, real>)
    ensures forall s :: s in served <==> s in syms && s in table && IsFresh(table[s], now, window)
    ensures forall s :: s in served ==> served[s] == table[s].value
  {
    served := map[];
    for i := 0 to |syms|
      invariant forall s :: s in served <==> s in syms[..i] && s in table && IsFresh(table[s], now, window)
      invariant forall s :: s in served ==> served[s] == table[s].value
    {
      var s := syms[i];
      if s in table && IsFresh(table[s], now, window) {
        served := served[s := table[s].value];
      }
      assert syms[..i + 1] == syms[..i] + [s];
    }
    assert syms[..|syms|] == syms;
  }

  /** Step 4: `pe_live[s] = price / eps` for every requested symbol with both and a non-zero EPS. */
  method LivePe(syms: seq<Symbol>, prices: map<Symbol, real>, eps: map<Symbol, real>)
    returns (pe: map<Symbol, real>)
    ensures forall s :: s in pe <==> s in syms && s in prices && s in eps && eps[s] != 0.0
    ensures forall s :: s in pe ==> pe[s] == prices[s] / eps[s]
  {
    pe := map[];
    for i := 0 to |syms|
      invariant forall s :: s in pe <==> s in syms[..i] && s in prices && s in eps && eps[s] != 0.0
      invariant forall s :: s in pe ==> eps[s] != 0.0 && pe[s] == prices[s] / eps[s]
    {
      var s := syms[i];
      if s in prices && s in eps && eps[s] != 0.0 {
        pe := pe[s := prices[s] / eps[s]];
      }
      assert syms[..i + 1] == syms[..i] + [s];
    }
    assert syms[..|syms|] == syms;
  }

  class QuoteCache {
    /** `last_price`. */
    var lastPrice: map<Symbol, CacheRow>
    /** `trailing_eps_cache`. */
    var trailingEps: map<Symbol, CacheRow>

    constructor (lastPrice: map<Symbol, CacheRow>, trailingEps: map<Symbol, CacheRow>)
      ensures this.lastPrice == lastPrice && this.trailingEps == trailingEps
    {
      this.lastPrice := lastPrice;
      this.trailingEps := trailingEps;
    }

    /**
     * Step 3: one provider lookup per distinct symbol of `needPrice + needEps`, in any order;
     * each obtained fact is added to the response maps and upserted with timestamp `now`.
     */
    method Refresh(needPrice: seq<Symbol>, needEps: seq<Symbol>, now: int, provider: Symbol -> Lookup,
                   prices0: map<Symbol, real>, eps0: map<Symbol, real>)
      returns (prices: map<Symbol, real>, eps: map<Symbol, real>, lookups: seq<Symbol>)
      modifies this
      ensures lastPrice == old(lastPrice) + Stamp(PriceFacts(needPrice, provider), now)
      ensures trailingEps == old(trailingEps) + Stamp(EpsFacts(needPrice, needEps, provider), now)
      ensures prices == prices0 + PriceFacts(needPrice, provider)
      ensures eps == eps0 + EpsFacts(needPrice, needEps, provider)
      ensures Distinct(lookups)
      ensures forall s :: s in lookups <==> s in needPrice || s in needEps
    {
      var pending := set s | s in needPrice + needEps;
      ghost var visited: set<Symbol> := {};
      ghost var pf, ef := PriceFacts(needPrice, provider), EpsFacts(needPrice, needEps, provider);
      prices, eps, lookups := prices0, eps0, [];
      assert forall s :: s in needPrice ==> s in pending;
      assert forall s :: s in needEps ==> s in pending;
      while pending != {}
        invariant pending !! visited
        invariant pending + visited == set s | s in needPrice + needEps
        invariant forall s :: s in lookups <==> s in visited
        invariant Distinct(lookups)
        invariant lastPrice == old(lastPrice) + Stamp(Restrict(pf, visited), now)
        invariant trailingEps == old(trailingEps) + Stamp(Restrict(ef, visited), now)
        invariant prices == prices0 + Restrict(pf, visited)
        invariant eps == eps0 + Restrict(ef, visited)
        decreases pending
      {
        var s :| s in pending;
        AppendDistinct(lookups, s);
        lookups := lookups + [s];
        VisitStep(pf, visited, s, now, prices0, old(lastPrice));
        VisitStep(ef, visited, s, now, eps0, old(trailingEps));
        prices, eps := Visit(s, needPrice, needEps, now, provider, prices, eps);
        pending := pending - {s};
        visited := visited + {s};
      }
      assert pf.Keys <= visited && ef.Keys <= visited;
      RestrictAll(pf, visited);
      RestrictAll(ef, visited);
    }

    /**
     * One iteration of the refresh loop: the lookup of `s`, its price step when the price was
     * stale, then its EPS step when the EPS was stale and the price step did not raise.
     */
    method Visit(s: Symbol, needPrice: seq<Symbol>, needEps: seq<Symbol>, now: int, provider: Symbol -> Lookup,
                 prices0: map<Symbol, real>, eps0: map<Symbol, real>)
      returns (prices: map<Symbol, real>, eps: map<Symbol, real>)
      modifies this
      ensures var pf := PriceFacts(needPrice, provider);
              && (s in pf ==> lastPrice == old(lastPrice)[s := CacheRow(pf[s], Some(now))] && prices == prices0[s := pf[s]])
              && (s !in pf ==> lastPrice == old(lastPrice) && prices == prices0)
      ensures var ef := EpsFacts(needPrice, needEps, provider);
              && (s in ef ==> trailingEps == old(trailingEps)[s := CacheRow(ef[s], Some(now))] && eps == eps0[s := ef[s]])
              && (s !in ef ==> trailingEps == old(trailingEps) && eps == eps0)
    {
      var lookup := provider(s);
      prices, eps := prices0, eps0;
      var aborted := false;
      if s in needPrice {
        match lookup.price
        case Obtained(p) =>
          prices := prices[s := p];
          lastPrice := lastPrice[s := CacheRow(p, Some(now))];
        case Unavailable =>
        case HistoryRaises =>
          aborted := true;
      }
      if !aborted && s in needEps && lookup.trailingEps.Some? {
        eps := eps[s := lookup.trailingEps.value];
        trailingEps := trailingEps[s := CacheRow(lookup.trailingEps.value, Some(now))];
      }
    }

    /**
     * `GET /api/price?symbols=...` at time `now`. Returns the response and the symbols the
     * provider was asked about, in the order asked.
     */
    method Price(symbols: string, now: int, provider: Symbol -> Lookup)
      returns (resp: PriceResponse, lookups: seq<Symbol>)
      modifies this
      ensures var syms := ParseSymbols(symbols);
              var needPrice := Missing(syms, Served(old(lastPrice), syms, now, PriceWindow));
              var needEps := Missing(syms, Served(old(trailingEps), syms, now, EpsWindow));
              && lastPrice == old(lastPrice) + Stamp(PriceFacts(needPrice, provider), now)
              && trailingEps == old(trailingEps) + Stamp(EpsFacts(needPrice, needEps, provider), now)
              && Distinct(lookups)
              && (forall s :: s in lookups <==> s in needPrice || s in needEps)
              && resp.prices == Served(old(lastPrice), syms, now, PriceWindow) + PriceFacts(needPrice, provider)
              && resp.trailingEps == Served(old(trailingEps), syms, now, EpsWindow) + EpsFacts(needPrice, needEps, provider)
              && resp.prices == Served(lastPrice, syms, now, PriceWindow)
              && resp.trailingEps == Served(trailingEps, syms, now, EpsWindow)
              && (forall s :: s in resp.peLive <==>
                    s in syms && s in resp.prices && s in resp.trailingEps && resp.trailingEps[s] != 0.0)
              && (forall s :: s in resp.peLive ==> resp.peLive[s] == resp.prices[s] / resp.trailingEps[s])
              && resp.asof == now
    {
      var syms := ParseSymbols(symbols);
      var cachedPrices := ServeFromCache(lastPrice, syms, now, PriceWindow);
      var cachedEps := ServeFromCache(trailingEps, syms, now, EpsWindow);
      assert cachedPrices == Served(lastPrice, syms, now, PriceWindow);
      assert cachedEps == Served(trailingEps, syms, now, EpsWindow);
      var needPrice := Missing(syms, cachedPrices);
      var needEps := Missing(syms, cachedEps);
      var prices, eps;
      prices, eps, lookups := Refresh(needPrice, needEps, now, provider, cachedPrices, cachedEps);
      ReadYourWrites(old(lastPrice), syms, now, PriceWindow, PriceFacts(needPrice, provider));
      ReadYourWrites(old(trailingEps), syms, now, EpsWindow, EpsFacts(needPrice, needEps, provider));
      var pe := LivePe(syms, prices, eps);
      resp := PriceResponse(prices, eps, pe, now);
    }
  }
}
