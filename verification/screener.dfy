/**
 * The screening read-model behind `GET /api/screener` and `GET /api/screener.csv`, and the
 * sector list behind `GET /api/sectors`: what the string-built SQL means, as pure functions
 * over the `symbols` and `factor_snapshot` tables (each a map keyed by its primary key).
 */
module Screener {
  import opened Wrappers
  import opened Symbols
  import opened Ordering

  /** A row of `symbols`; `name` is NOT NULL. */
  datatype SymbolRecord = SymbolRecord(
    name: string,
    exchange: Option<string>,
    sector: Option<string>,
    industry: Option<string>,
    sharesOut: Option<real>)

  /** A row of `factor_snapshot`: every column nullable. */
  datatype FactorSnapshot = FactorSnapshot(
    asof: Option<string>,
    ttmEps: Option<real>,
    ebitdaTtm: Option<real>,
    bookTtm: Option<real>,
    investedCapitalTtm: Option<real>,
    nopatTtm: Option<real>,
    roic: Option<real>,
    debt: Option<real>,
    cash: Option<real>)

  datatype Catalog = Catalog(symbols: map<Symbol, SymbolRecord>, factors: map<Symbol, FactorSnapshot>)

  /** One result row, with the columns both endpoints select. */
  datatype Row = Row(
    symbol: Symbol,
    name: string,
    roic: Option<real>,
    ttmEps: Option<real>,
    ebitdaTtm: Option<real>,
    bookTtm: Option<real>,
    sharesOut: Option<real>,
    debt: Option<real>,
    cash: Option<real>,
    sector: Option<string>)

  /**
   * The query parameters; a missing parameter is `None`. A missing `limit` takes the
   * endpoint's default; `offset` defaults to 0 on both endpoints.
   */
  datatype Query = Query(
    roicMin: Option<real>,
    sector: Option<string>,
    peMax: Option<real>,
    symbols: Option<string>,
    limit: Option<nat>,
    offset: nat)

  /** Default page size of the JSON endpoint. */
  const JsonDefaultLimit: nat := 200

  /** Default page size of the CSV export. */
  const CsvDefaultLimit: nat := 1000

  function JsonLimit(q: Query): nat {
    q.limit.GetOr(JsonDefaultLimit)
  }

  function CsvLimit(q: Query): nat {
    q.limit.GetOr(CsvDefaultLimit)
  }

  /** `symbols` holds a non-empty string (Python truthiness): explicit-list mode. */
  predicate ExplicitMode(q: Query) {
    q.symbols.Some? && q.symbols.value != ""
  }

  /** `symbols s` and `factor_snapshot f` LEFT JOINed on `sym`; the name falls back to the symbol. */
  function JoinRow(db: Catalog, sym: Symbol): Row {
    var s := if sym in db.symbols then Some(db.symbols[sym]) else None;
    var f := if sym in db.factors then Some(db.factors[sym]) else None;
    Row(
      sym,
      if s.Some? then s.value.name else sym,
      if f.Some? then f.value.roic else None,
      if f.Some? then f.value.ttmEps else None,
      if f.Some? then f.value.ebitdaTtm else None,
      if f.Some? then f.value.bookTtm else None,
      if s.Some? then s.value.sharesOut else None,
      if f.Some? then f.value.debt else None,
      if f.Some? then f.value.cash else None,
      if s.Some? then s.value.sector else None)
  }

  function JoinAll(db: Catalog, syms: seq<Symbol>): (rows: seq<Row>)
    ensures |rows| == |syms|
    ensures forall i :: 0 <= i < |syms| ==> rows[i] == JoinRow(db, syms[i]) && rows[i].symbol == syms[i]
  {
    seq(|syms|, i requires 0 <= i < |syms| => JoinRow(db, syms[i]))
  }

  /**
   * The rows before any filter: in explicit-list mode one row per parsed list entry (the
   * `syms` CTE LEFT JOINed to both tables), otherwise one row per `symbols` row. Either way
   * each row is its symbol's joined row.
   */
  function Candidates(db: Catalog, q: Query): (rows: seq<Row>)
    ensures ExplicitMode(q) ==> |rows| == |ParseSymbols(q.symbols.value)|
    ensures ExplicitMode(q) ==> forall i :: 0 <= i < |rows| ==> rows[i] == JoinRow(db, ParseSymbols(q.symbols.value)[i])
    ensures forall r :: r in rows ==> r == JoinRow(db, r.symbol)
    ensures !ExplicitMode(q) ==> |rows| == |db.symbols|
    ensures !ExplicitMode(q) ==> forall r :: r in rows ==> r.symbol in db.symbols
    ensures !ExplicitMode(q) ==> forall k :: k in db.symbols ==> JoinRow(db, k) in rows
  {
    if ExplicitMode(q) then JoinAll(db, ParseSymbols(q.symbols.value))
    else
      AllRowsFacts(db);
      JoinAll(db, SortedKeys(db.symbols.Keys))
  }

  /** Without an explicit list, one joined row per `symbols` row, each of them present. */
  lemma AllRowsFacts(db: Catalog)
    ensures var rows := JoinAll(db, SortedKeys(db.symbols.Keys));
            |rows| == |db.symbols| &&
            (forall r :: r in rows ==> r.symbol in db.symbols && r == JoinRow(db, r.symbol)) &&
            (forall k :: k in db.symbols ==> JoinRow(db, k) in rows)
  {
    var keys := SortedKeys(db.symbols.Keys);
    var rows := JoinAll(db, keys);
    assert |db.symbols| == |db.symbols.Keys|;
    forall k | k in db.symbols ensures JoinRow(db, k) in rows {
      var i :| 0 <= i < |keys| && keys[i] == k;
      assert rows[i] == JoinRow(db, k);
    }
  }

  /** `needle` occurs in `hay`: SQL `hay LIKE '%needle%'` read as plain containment. */
  predicate Contains(hay: string, needle: string) {
    needle <= hay || (hay != [] && Contains(hay[1..], needle))
  }

  /**
   * The WHERE clause. `roicGate` is the ROIC threshold the endpoint actually applies (the
   * endpoints decide that differently); the sector filter is on when `sector` is non-empty
   * and never drops a NULL sector; `pe_max`, when given, only keeps positive trailing EPS.
   */
  predicate Passes(r: Row, roicGate: Option<real>, q: Query) {
    && (roicGate.Some? ==> r.roic.Some? && r.roic.value >= roicGate.value)
    && (q.sector.Some? && q.sector.value != "" ==> r.sector.None? || Contains(r.sector.value, q.sector.value))
    && (q.peMax.Some? ==> r.ttmEps.Some? && r.ttmEps.value > 0.0)
  }

  /** The WHERE clause over a row list: each passing row as often as it occurs, failing rows never. */
  function Filter(rows: seq<Row>, roicGate: Option<real>, q: Query): (out: seq<Row>)
    ensures |out| <= |rows|
    ensures forall r :: r in out <==> r in rows && Passes(r, roicGate, q)
    ensures forall r :: multiset(out)[r] == if Passes(r, roicGate, q) then multiset(rows)[r] else 0
  {
    if rows == [] then []
    else
      var rest := Filter(rows[1..], roicGate, q);
      assert rows == [rows[0]] + rows[1..];
      assert forall r :: r in rows <==> r == rows[0] || r in rows[1..];
      if Passes(rows[0], roicGate, q) then [rows[0]] + rest else rest
  }

  /** Filtering the concatenation of two lists filters each in turn, so kept rows stay in input order. */
  lemma {:induction false} FilterAppend(a: seq<Row>, b: seq<Row>, roicGate: Option<real>, q: Query)
    ensures Filter(a + b, roicGate, q) == Filter(a, roicGate, q) + Filter(b, roicGate, q)
  {
    if a == [] {
      assert a + b == b;
    } else {
      assert (a + b)[0] == a[0] && (a + b)[1..] == a[1..] + b;
      FilterAppend(a[1..], b, roicGate, q);
      ConcatAssoc([a[0]], Filter(a[1..], roicGate, q), Filter(b, roicGate, q));
    }
  }

  /** A single row is kept exactly when it passes. */
  lemma FilterSingle(r: Row, roicGate: Option<real>, q: Query)
    ensures Filter([r], roicGate, q) == if Passes(r, roicGate, q) then [r] else []
  {
    assert [r][1..] == [];
  }

  predicate SortedBySymbol(rows: seq<Row>) {
    forall i, j :: 0 <= i < j < |rows| ==> LexLe(rows[i].symbol, rows[j].symbol)
  }

  /** A row no greater than the head of a sorted list can go in front of it. */
  lemma InsertFrontSorted(r: Row, rows: seq<Row>)
    requires SortedBySymbol(rows) && rows != [] && LexLe(r.symbol, rows[0].symbol)
    ensures SortedBySymbol([r] + rows)
  {
    var out := [r] + rows;
    forall i, j | 0 <= i < j < |out| ensures LexLe(out[i].symbol, out[j].symbol) {
      if i == 0 && j > 1 {
        LexLeTransitive(r.symbol, rows[0].symbol, rows[j - 1].symbol);
      }
    }
  }

  /** A head no greater than every row of a sorted list, and of the inserted row, stays in front. */
  lemma InsertBehindSorted(head: Row, r: Row, tail: seq<Row>, rest: seq<Row>)
    requires SortedBySymbol([head] + tail) && SortedBySymbol(rest)
    requires multiset(rest) == multiset(tail) + multiset{r}
    requires LexLe(head.symbol, r.symbol)
    ensures SortedBySymbol([head] + rest)
  {
    forall x | x in rest ensures LexLe(head.symbol, x.symbol) {
      assert x in multiset(rest);
      if x != r {
        assert x in multiset(tail);
        var k :| 0 <= k < |tail| && tail[k] == x;
        assert ([head] + tail)[0] == head && ([head] + tail)[k + 1] == x;
      }
    }
    var out := [head] + rest;
    forall i, j | 0 <= i < j < |out| ensures LexLe(out[i].symbol, out[j].symbol) {
      if i > 0 {
        assert out[i] == rest[i - 1] && out[j] == rest[j - 1];
      } else {
        assert out[j] in rest;
      }
    }
  }

  function Insert(r: Row, rows: seq<Row>): (out: seq<Row>)
    requires SortedBySymbol(rows)
    ensures SortedBySymbol(out)
    ensures multiset(out) == multiset(rows) + multiset{r}
  {
    if rows == [] then [r]
    else if LexLe(r.symbol, rows[0].symbol) then
      InsertFrontSorted(r, rows);
      [r] + rows
    else
      var rest := Insert(r, rows[1..]);
      assert rows == [rows[0]] + rows[1..];
      LexLeTotal(r.symbol, rows[0].symbol);
      InsertBehindSorted(rows[0], r, rows[1..], rest);
      [rows[0]] + rest
  }

  /** `ORDER BY 1`: ascending by symbol, rows kept as a multiset. */
  function SortBySymbol(rows: seq<Row>): (out: seq<Row>)
    ensures SortedBySymbol(out)
    ensures multiset(out) == multiset(rows)
  {
    if rows == [] then []
    else
      assert rows == [rows[0]] + rows[1..];
      Insert(rows[0], SortBySymbol(rows[1..]))
  }

  /** `LIMIT limit OFFSET offset`. */
  function Page(rows: seq<Row>, limit: nat, offset: nat): (out: seq<Row>)
    ensures offset >= |rows| ==> out == []
    ensures offset < |rows| ==> |out| == if limit < |rows| - offset then limit else |rows| - offset
    ensures forall i :: 0 <= i < |out| ==> out[i] == rows[offset + i]
  {
    if offset >= |rows| then []
    else
      var rest := rows[offset..];
      if limit < |rest| then rest[..limit] else rest
  }

  /** A page of a sorted list is sorted and takes its rows from that list. */
  lemma PageSorted(rows: seq<Row>, limit: nat, offset: nat)
    requires SortedBySymbol(rows)
    ensures SortedBySymbol(Page(rows, limit, offset))
    ensures forall r :: r in Page(rows, limit, offset) ==> r in rows
  {
    var out := Page(rows, limit, offset);
    forall r | r in out ensures r in rows {
      var i :| 0 <= i < |out| && out[i] == r;
      assert rows[offset + i] == r;
    }
  }

  /** Filtering, sorting and paging keep the query's guarantees for any candidate list. */
  lemma PipelineFacts(cands: seq<Row>, roicGate: Option<real>, q: Query, limit: nat)
    ensures var items := Page(SortBySymbol(Filter(cands, roicGate, q)), limit, q.offset);
            SortedBySymbol(items) && |items| <= limit &&
            forall r :: r in items ==> r in cands && Passes(r, roicGate, q)
  {
    var sorted := SortBySymbol(Filter(cands, roicGate, q));
    PageSorted(sorted, limit, q.offset);
    forall r | r in sorted ensures r in cands && Passes(r, roicGate, q) {
      assert r in multiset(sorted);
    }
  }

  /** The query both endpoints run, for the ROIC threshold `roicGate` and page size they apply. */
  function Run(db: Catalog, q: Query, roicGate: Option<real>, limit: nat): (items: seq<Row>)
    ensures SortedBySymbol(items)
    ensures |items| <= limit
    ensures forall r :: r in items ==> r in Candidates(db, q) && Passes(r, roicGate, q)
  {
    if ExplicitMode(q) && ParseSymbols(q.symbols.value) == [] then []
    else
      var cands := Candidates(db, q);
      PipelineFacts(cands, roicGate, q, limit);
      Page(SortBySymbol(Filter(cands, roicGate, q)), limit, q.offset)
  }

  /**
   * Two lists sorted by symbol that hold the same rows are equal, provided rows with equal
   * symbols are equal rows.
   */
  lemma {:induction false} SortedUnique(a: seq<Row>, b: seq<Row>)
    requires SortedBySymbol(a) && SortedBySymbol(b) && multiset(a) == multiset(b)
    requires forall x, y :: x in a && y in a && x.symbol == y.symbol ==> x == y
    ensures a == b
  {
    assert |a| == |multiset(a)| == |multiset(b)| == |b|;
    if a != [] {
      assert a[0] in multiset(b) && b[0] in multiset(a);
      SortedHeadLeast(a, b[0]);
      SortedHeadLeast(b, a[0]);
      LexLeAntisymmetric(a[0].symbol, b[0].symbol);
      assert b[0] in a;
      assert a[0] == b[0];
      MultisetTail(a, b);
      SortedUnique(a[1..], b[1..]);
    }
  }

  lemma MultisetTail<T>(a: seq<T>, b: seq<T>)
    requires a != [] && b != [] && a[0] == b[0] && multiset(a) == multiset(b)
    ensures multiset(a[1..]) == multiset(b[1..])
  {
    assert a == [a[0]] + a[1..] && b == [b[0]] + b[1..];
    assert multiset(a) == multiset{a[0]} + multiset(a[1..]);
    assert multiset(b) == multiset{a[0]} + multiset(b[1..]);
    forall x ensures multiset(a[1..])[x] == multiset(b[1..])[x] {
      assert multiset(a)[x] == multiset{a[0]}[x] + multiset(a[1..])[x];
      assert multiset(b)[x] == multiset{a[0]}[x] + multiset(b[1..])[x];
    }
  }

  /** The head of a list sorted by symbol has the least symbol. */
  lemma SortedHeadLeast(rows: seq<Row>, x: Row)
    requires SortedBySymbol(rows) && x in rows
    ensures LexLe(rows[0].symbol, x.symbol)
  {
    var k :| 0 <= k < |rows| && rows[k] == x;
    if k == 0 {
      LexLeRefl(x.symbol);
    }
  }

  /**
   * `ORDER BY 1 LIMIT ? OFFSET ?`, end to end: for any symbol-sorted listing `s` of the rows
   * that pass the filters, the result is the window of `s` that `limit` and `offset` select.
   */
  lemma RunIsPage(db: Catalog, q: Query, roicGate: Option<real>, limit: nat, s: seq<Row>)
    requires SortedBySymbol(s) && multiset(s) == multiset(Filter(Candidates(db, q), roicGate, q))
    ensures Run(db, q, roicGate, limit) == Page(s, limit, q.offset)
  {
    var cands := Candidates(db, q);
    if ExplicitMode(q) && ParseSymbols(q.symbols.value) == [] {
      assert cands == [];
      assert |s| == |multiset(s)| == 0;
    } else {
      SortedJoinedUnique(db, cands, roicGate, q, s);
    }
  }

  /** Over joined rows, the sorted passing rows are determined by their multiset. */
  lemma SortedJoinedUnique(db: Catalog, cands: seq<Row>, roicGate: Option<real>, q: Query, s: seq<Row>)
    requires forall r :: r in cands ==> r == JoinRow(db, r.symbol)
    requires SortedBySymbol(s) && multiset(s) == multiset(Filter(cands, roicGate, q))
    ensures SortBySymbol(Filter(cands, roicGate, q)) == s
  {
    var sorted := SortBySymbol(Filter(cands, roicGate, q));
    forall x, y | x in sorted && y in sorted && x.symbol == y.symbol ensures x == y {
      assert x in multiset(sorted) && y in multiset(sorted);
    }
    SortedUnique(sorted, s);
  }

  /** The JSON endpoint filters on ROIC only for a positive `roic_min`. */
  function JsonRoicGate(q: Query): Option<real> {
    if q.roicMin.Some? && q.roicMin.value > 0.0 then q.roicMin else None
  }

  /** The CSV endpoint filters on ROIC whenever `roic_min` is given. */
  function CsvRoicGate(q: Query): Option<real> {
    q.roicMin
  }

  /** `GET /api/screener`. */
  function Screen(db: Catalog, q: Query): (items: seq<Row>)
    ensures SortedBySymbol(items)
    ensures |items| <= JsonLimit(q)
    ensures forall r :: r in items ==> r in Candidates(db, q) && Passes(r, JsonRoicGate(q), q)
  {
    Run(db, q, JsonRoicGate(q), JsonLimit(q))
  }

  /** `GET /api/screener.csv`, as written: the rows written after the header. */
  function ScreenCsv(db: Catalog, q: Query): (items: seq<Row>)
    ensures SortedBySymbol(items)
    ensures |items| <= CsvLimit(q)
    ensures forall r :: r in items ==> r in Candidates(db, q) && Passes(r, CsvRoicGate(q), q)
  {
    Run(db, q, CsvRoicGate(q), CsvLimit(q))
  }

  /**
   * The CSV export with the JSON endpoint's ROIC rule: a `roic_min` that is absent, zero or
   * negative filters nothing, so a NULL ROIC never drops a row on its own.
   */
  function ScreenCsvAligned(db: Catalog, q: Query): (items: seq<Row>)
    ensures SortedBySymbol(items)
    ensures |items| <= CsvLimit(q)
    ensures forall r :: r in items ==> r in Candidates(db, q) && Passes(r, JsonRoicGate(q), q)
    ensures q.roicMin.Some? && q.roicMin.value > 0.0 ==>
      forall r :: r in items ==> r.roic.Some? && r.roic.value >= q.roicMin.value
  {
    Run(db, q, JsonRoicGate(q), CsvLimit(q))
  }

  /** JSON: the page `limit` (default 200) and `offset` select from the sorted passing rows. */
  lemma ScreenIsPage(db: Catalog, q: Query, s: seq<Row>)
    requires SortedBySymbol(s) && multiset(s) == multiset(Filter(Candidates(db, q), JsonRoicGate(q), q))
    ensures Screen(db, q) == Page(s, JsonLimit(q), q.offset)
  {
    RunIsPage(db, q, JsonRoicGate(q), JsonLimit(q), s);
  }

  /** CSV as written: the page `limit` (default 1000) and `offset` select from the sorted passing rows. */
  lemma ScreenCsvIsPage(db: Catalog, q: Query, s: seq<Row>)
    requires SortedBySymbol(s) && multiset(s) == multiset(Filter(Candidates(db, q), CsvRoicGate(q), q))
    ensures ScreenCsv(db, q) == Page(s, CsvLimit(q), q.offset)
  {
    RunIsPage(db, q, CsvRoicGate(q), CsvLimit(q), s);
  }

  /** Corrected CSV: the same window, over the rows that pass the JSON endpoint's filters. */
  lemma ScreenCsvAlignedIsPage(db: Catalog, q: Query, s: seq<Row>)
    requires SortedBySymbol(s) && multiset(s) == multiset(Filter(Candidates(db, q), JsonRoicGate(q), q))
    ensures ScreenCsvAligned(db, q) == Page(s, CsvLimit(q), q.offset)
  {
    RunIsPage(db, q, JsonRoicGate(q), CsvLimit(q), s);
  }

  /** Sector values of the `symbols` rows that have a non-empty one. */
  function SectorValues(db: Catalog): set<string> {
    set k | k in db.symbols && db.symbols[k].sector.Some? && db.symbols[k].sector.value != "" :: db.symbols[k].sector.value
  }

  /**
   * `GET /api/sectors`: each non-NULL, non-empty sector of `symbols` exactly once, in
   * ascending order, and nothing else.
   */
  function Sectors(db: Catalog): (r: seq<string>)
    ensures StrictlySorted(r)
    ensures forall k :: k in db.symbols && db.symbols[k].sector.Some? && db.symbols[k].sector.value != "" ==>
      db.symbols[k].sector.value in r
    ensures forall x :: x in r ==> x != "" && exists k :: k in db.symbols && db.symbols[k].sector == Some(x)
  {
    SortedKeys(SectorValues(db))
  }

  /** A first page that holds every candidate returns exactly the filtered rows, in some order. */
  lemma PipelineComplete(cands: seq<Row>, roicGate: Option<real>, q: Query, limit: nat)
    requires q.offset == 0 && |cands| <= limit
    ensures var items := Page(SortBySymbol(Filter(cands, roicGate, q)), limit, q.offset);
            multiset(items) == multiset(Filter(cands, roicGate, q))
  {
    var filtered := Filter(cands, roicGate, q);
    var sorted := SortBySymbol(filtered);
    assert |sorted| == |multiset(sorted)| == |filtered|;
    assert Page(sorted, limit, q.offset) == sorted;
  }

  /** When the page does not cut, every candidate that passes the filters is returned. */
  lemma RunComplete(db: Catalog, q: Query, roicGate: Option<real>, limit: nat)
    requires q.offset == 0 && |Candidates(db, q)| <= limit
    ensures multiset(Run(db, q, roicGate, limit)) == multiset(Filter(Candidates(db, q), roicGate, q))
    ensures forall r :: r in Candidates(db, q) && Passes(r, roicGate, q) ==> r in Run(db, q, roicGate, limit)
  {
    RunKeepsAll(db, q, roicGate, limit);
    var items := Run(db, q, roicGate, limit);
    var filtered := Filter(Candidates(db, q), roicGate, q);
    forall r | r in Candidates(db, q) && Passes(r, roicGate, q) ensures r in items {
      assert r in multiset(filtered);
    }
  }

  lemma RunKeepsAll(db: Catalog, q: Query, roicGate: Option<real>, limit: nat)
    requires q.offset == 0 && |Candidates(db, q)| <= limit
    ensures multiset(Run(db, q, roicGate, limit)) == multiset(Filter(Candidates(db, q), roicGate, q))
  {
    var cands := Candidates(db, q);
    if ExplicitMode(q) && ParseSymbols(q.symbols.value) == [] {
      assert cands == [];
      assert Filter(cands, roicGate, q) == [];
    } else {
      PipelineComplete(cands, roicGate, q, limit);
    }
  }

  /** JSON: rows sorted by symbol, within the page size, each passing the filters, none missed. */
  lemma ScreenComplete(db: Catalog, q: Query, r: Row)
    requires q.offset == 0 && |Candidates(db, q)| <= JsonLimit(q)
    requires r in Candidates(db, q) && Passes(r, JsonRoicGate(q), q)
    ensures r in Screen(db, q)
  {
    RunComplete(db, q, JsonRoicGate(q), JsonLimit(q));
  }

  /**
   * With no filter and a page large enough, an explicit list yields exactly one row per
   * list entry, duplicates included, in symbol order.
   */
  lemma ExplicitListKeepsEveryEntry(db: Catalog, q: Query)
    requires ExplicitMode(q) && q.roicMin.None? && q.sector.None? && q.peMax.None?
    requires q.offset == 0 && |ParseSymbols(q.symbols.value)| <= JsonLimit(q)
    ensures |Screen(db, q)| == |ParseSymbols(q.symbols.value)|
    ensures forall sym :: sym in ParseSymbols(q.symbols.value) ==> JoinRow(db, sym) in Screen(db, q)
    ensures multiset(Screen(db, q)) == multiset(JoinAll(db, ParseSymbols(q.symbols.value)))
  {
    var syms := ParseSymbols(q.symbols.value);
    var cands := Candidates(db, q);
    var items := Screen(db, q);
    assert cands == JoinAll(db, syms);
    assert multiset(items) == multiset(cands) by {
      assert JsonRoicGate(q) == None;
      FilterKeepsAll(cands, None, q);
      RunComplete(db, q, None, JsonLimit(q));
    }
    assert |items| == |syms| by {
      assert |items| == |multiset(items)|;
      assert |cands| == |multiset(cands)|;
    }
    forall sym | sym in syms ensures JoinRow(db, sym) in items {
      var i :| 0 <= i < |syms| && syms[i] == sym;
      assert cands[i] == JoinRow(db, sym);
      assert cands[i] in multiset(items);
    }
  }

  lemma {:induction false} FilterKeepsAll(rows: seq<Row>, roicGate: Option<real>, q: Query)
    requires roicGate.None? && q.sector.None? && q.peMax.None?
    ensures Filter(rows, roicGate, q) == rows
  {
    if rows != [] {
      FilterKeepsAll(rows[1..], roicGate, q);
      assert rows == [rows[0]] + rows[1..];
    }
  }

  /**
   * Every symbol gets a row: without a `symbols` row its name is the symbol and its sector and
   * share count are NULL; without a snapshot all its factor columns are NULL.
   */
  lemma UnknownSymbolDefaults(db: Catalog, sym: Symbol)
    ensures JoinRow(db, sym).symbol == sym
    ensures sym !in db.symbols ==>
      JoinRow(db, sym).name == sym && JoinRow(db, sym).sector.None? && JoinRow(db, sym).sharesOut.None?
    ensures sym !in db.factors ==>
      var r := JoinRow(db, sym);
      r.roic.None? && r.ttmEps.None? && r.ebitdaTtm.None? && r.bookTtm.None? && r.debt.None? && r.cash.None?
  {
  }

  /** `?symbols=ZZZZ` against a store that does not know ZZZZ returns exactly that one row. */
  lemma UnknownSymbolScreen(db: Catalog)
    requires "ZZZZ" !in db.symbols && "ZZZZ" !in db.factors
    ensures Screen(db, Query(None, None, None, Some("ZZZZ"), None, 0))
         == [Row("ZZZZ", "ZZZZ", None, None, None, None, None, None, None, None)]
  {
    var q := Query(None, None, None, Some("ZZZZ"), None, 0);
    var r := JoinRow(db, "ZZZZ");
    ParseZZZZ();
    assert ExplicitMode(q);
    var cands := Candidates(db, q);
    assert cands == JoinAll(db, ["ZZZZ"]);
    assert |cands| == 1 && cands[0] == r;
    assert cands == [r];
    FilterSingle(r, JsonRoicGate(q), q);
    ScreenIsPage(db, q, [r]);
    UnknownSymbolDefaults(db, "ZZZZ");
  }

  lemma ParseZZZZ()
    ensures ParseSymbols("ZZZZ") == ["ZZZZ"]
  {
    var w := "ZZZZ";
    assert w[0] == w[1] == w[2] == w[3] == 'Z' && |w| == 4;
    assert WellFormedSymbol(w);
    ParseSingleSymbol(w);
  }

  /** The ROIC bound is inclusive: roic 0.55 passes `roic_min=0.55` and fails `roic_min=0.56`. */
  lemma RoicBoundary(r: Row, q: Query)
    requires r.roic == Some(0.55) && q.sector.None? && q.peMax.None?
    ensures Passes(r, JsonRoicGate(q.(roicMin := Some(0.55))), q)
    ensures !Passes(r, JsonRoicGate(q.(roicMin := Some(0.56))), q)
  {
  }

  /** A NULL sector never fails the sector filter; a NULL ROIC always fails an active ROIC filter. */
  lemma NullHandling(r: Row, roicGate: Option<real>, q: Query)
    ensures r.sector.None? ==>
      (Passes(r, roicGate, q) <==> Passes(r, roicGate, q.(sector := None)))
    ensures r.roic.None? && roicGate.Some? ==> !Passes(r, roicGate, q)
    ensures r.ttmEps.None? && q.peMax.Some? ==> !Passes(r, roicGate, q)
  {
  }

  /** An explicit list that parses to nothing (`?symbols=,,`) yields no rows on either endpoint. */
  lemma BlankListYieldsNothing(db: Catalog, q: Query)
    requires ExplicitMode(q) && ParseSymbols(q.symbols.value) == []
    ensures Screen(db, q) == [] && ScreenCsv(db, q) == []
  {
  }

  /**
   * The two endpoints agree whenever `roic_min` is absent or positive and both are asked for the
   * same page size; a missing `limit` means 1000 rows for the CSV export but 200 for JSON.
   */
  lemma CsvMatchesJson(db: Catalog, q: Query)
    requires q.roicMin.None? || q.roicMin.value > 0.0
    ensures q.limit.Some? ==> ScreenCsv(db, q) == Screen(db, q)
  {
    assert CsvRoicGate(q) == JsonRoicGate(q);
  }

  /**
   * With `roic_min` zero or negative, the JSON endpoint applies no ROIC filter but the CSV
   * export still drops every row whose ROIC is NULL.
   */
  lemma CsvDropsNullRoicRows(db: Catalog, q: Query, r: Row)
    requires q.roicMin.Some? && q.roicMin.value <= 0.0
    requires q.offset == 0 && |Candidates(db, q)| <= JsonLimit(q)
    requires r in Candidates(db, q) && r.roic.None? && Passes(r, None, q)
    ensures r in Screen(db, q) && r !in ScreenCsv(db, q)
  {
    ScreenComplete(db, q, r);
  }

  /**
   * The corrected export keeps what the as-written one drops: with `roic_min` zero or negative,
   * a NULL-ROIC row that passes the other filters is exported when the page does not cut.
   */
  lemma CsvAlignedKeepsNullRoicRows(db: Catalog, q: Query, r: Row)
    requires q.roicMin.Some? && q.roicMin.value <= 0.0
    requires q.offset == 0 && |Candidates(db, q)| <= CsvLimit(q)
    requires r in Candidates(db, q) && r.roic.None? && Passes(r, None, q)
    ensures r in ScreenCsvAligned(db, q) && r !in ScreenCsv(db, q)
  {
    assert JsonRoicGate(q) == None;
    assert r in ScreenCsvAligned(db, q) by {
      RunComplete(db, q, None, CsvLimit(q));
    }
    assert !Passes(r, CsvRoicGate(q), q);
  }

  /** Where `roic_min` is absent or positive, the correction changes nothing. */
  lemma CsvAlignedAgreesWhereCsvIsRight(db: Catalog, q: Query)
    requires q.roicMin.None? || q.roicMin.value > 0.0
    ensures ScreenCsvAligned(db, q) == ScreenCsv(db, q)
  {
  }

  /**
   * A concrete case: one company with no factor snapshot, queried with `roic_min=0`. The JSON
   * endpoint and the corrected export return its row; the CSV export as written returns nothing.
   */
  lemma CsvZeroRoicExample()
    ensures var db := Catalog(map["AAA" := SymbolRecord("Acme", None, None, None, None)], map[]);
            var q := Query(Some(0.0), None, None, None, None, 0);
            Screen(db, q) == [JoinRow(db, "AAA")] && ScreenCsvAligned(db, q) == [JoinRow(db, "AAA")] &&
            ScreenCsv(db, q) == []
  {
    var db := Catalog(map["AAA" := SymbolRecord("Acme", None, None, None, None)], map[]);
    var q := Query(Some(0.0), None, None, None, None, 0);
    var r := JoinRow(db, "AAA");
    var cands := Candidates(db, q);
    assert |cands| == 1 && r in cands;
    assert cands == [r];
    assert Passes(r, None, q) && !Passes(r, Some(0.0), q);
    FilterSingle(r, None, q);
    FilterSingle(r, Some(0.0), q);
    ScreenIsPage(db, q, [r]);
    ScreenCsvAlignedIsPage(db, q, [r]);
    ScreenCsvIsPage(db, q, []);
  }
}
