/** The read path of the catalog: the listing with its category filter and page
    window, the case-insensitive name search, the per-category statistics and
    the lookup by id. None of them changes the catalog. */
module Queries {
  import opened JsValues
  import opened JsString
  import opened JsArray
  import opened Responses
  import opened Catalog

  /** The body of a listing answer. */
  datatype Listing = Listing(page: int, total: nat, data: seq<Product>)

  /** Page and page size when the query leaves them out. */
  const DefaultPage: int := 1
  const DefaultLimit: int := 10

  /** The listing's filter predicate: the category equals `q` up to case. */
  function CategoryMatches(q: string): Product -> bool {
    (p: Product) => EqualsIgnoringCase(p.category, q)
  }

  /** The filtering step of the listing; an absent or empty category keeps everything. */
  function FilterByCategory(ps: seq<Product>, category: Option<string>): seq<Product> {
    if TruthyString(category) then Filter(ps, CategoryMatches(category.value)) else ps
  }

  /** The page window: positions `[(page - 1) * limit, (page - 1) * limit + limit)`,
      read as `Array.prototype.slice` reads them. */
  function Window(rs: seq<Product>, page: int, limit: int): seq<Product> {
    var start := PageStart(page, limit);
    Slice(rs, start, start + limit)
  }

  /** Position of the first record of `page` (1-based). */
  function PageStart(page: int, limit: int): (start: int)
    ensures page >= 1 && limit >= 0 ==> start >= 0
  {
    (page - 1) * limit
  }

  /** GET /api/products: filter, then cut out one page; `total` counts the
      filtered records before the page is cut. */
  function List(ps: seq<Product>, category: Option<string>, page: Option<int>, limit: Option<int>): (r: Listing)
    ensures r.total <= |ps|
    ensures |r.data| <= r.total
    ensures forall j :: 0 <= j < |r.data| ==> r.data[j] in ps
  {
    var rs := FilterByCategory(ps, category);
    var p := page.GetOr(DefaultPage);
    var l := limit.GetOr(DefaultLimit);
    Listing(p, |rs|, Window(rs, p, l))
  }

  /** With a non-empty category the filter keeps exactly the records whose
      category equals it up to case, in catalog order; otherwise it keeps all. */
  lemma FilterByCategoryExact(ps: seq<Product>, category: Option<string>)
    ensures !TruthyString(category) ==> FilterByCategory(ps, category) == ps
    ensures TruthyString(category) ==>
      forall i :: 0 <= i < |ps| ==>
        (ps[i] in FilterByCategory(ps, category) <==> EqualsIgnoringCase(ps[i].category, category.value))
    ensures TruthyString(category) ==>
      exists idx :: IsOrderedSelection(FilterByCategory(ps, category), ps, CategoryMatches(category.value), idx)
  {
    if TruthyString(category) {
      var rs := FilterByCategory(ps, category);
      forall i | 0 <= i < |ps| && ps[i] in rs
        ensures EqualsIgnoringCase(ps[i].category, category.value)
      {
        var j :| 0 <= j < |rs| && rs[j] == ps[i];
      }
      FilterIsOrderedSelection(ps, CategoryMatches(category.value));
    }
  }

  /** For a page from 1 on and a non-negative page size, the listing echoes the
      page, reports the filtered count whatever the page, and holds the filtered
      records from `(page - 1) * limit` on, at most `limit` of them, none once
      the page starts past the end. */
  lemma ListWindow(ps: seq<Product>, category: Option<string>, page: Option<int>, limit: Option<int>)
    requires page.Some? ==> page.value >= 1
    requires limit.Some? ==> limit.value >= 0
    ensures var r := List(ps, category, page, limit);
      var rs := FilterByCategory(ps, category);
      var p := page.GetOr(DefaultPage);
      var l := limit.GetOr(DefaultLimit);
      var start := PageStart(p, l);
      && r.page == p
      && r.total == |rs|
      && r.data == rs[Min(start, |rs|)..Min(start + l, |rs|)]
      && |r.data| <= l
      && (start >= |rs| ==> r.data == [])
  {
    var rs := FilterByCategory(ps, category);
    var p := page.GetOr(DefaultPage);
    var l := limit.GetOr(DefaultLimit);
    assert p >= 1 && l >= 0;
    assert List(ps, category, page, limit) == Listing(p, |rs|, Window(rs, p, l));
    WindowClipped(rs, p, l);
  }

  /** The window of a page from 1 on is the clipped range of positions it covers. */
  lemma WindowClipped(rs: seq<Product>, page: int, limit: int)
    requires page >= 1 && limit >= 0
    ensures var start := PageStart(page, limit);
      && Window(rs, page, limit) == rs[Min(start, |rs|)..Min(start + limit, |rs|)]
      && |Window(rs, page, limit)| <= limit
      && (start >= |rs| ==> Window(rs, page, limit) == [])
  {
    var start := PageStart(page, limit);
    SliceNonNegative(rs, start, start + limit);
  }

  /** The page layout: with page size `limit`, item `m` of page `q + 1` is the
      filtered record at position `q * limit + m`, for every such position. */
  lemma EveryRecordOnItsPage(rs: seq<Product>, limit: int, q: nat, m: nat)
    requires 0 <= m < limit
    requires q * limit + m < |rs|
    ensures m < |Window(rs, q + 1, limit)|
    ensures Window(rs, q + 1, limit)[m] == rs[q * limit + m]
  {
    var start := PageStart(q + 1, limit);
    assert start == q * limit;
    SliceNonNegative(rs, start, start + limit);
  }

  /** The search filter predicate: the lower-cased name contains the lower-cased query. */
  function NameMatches(q: string): Product -> bool {
    (p: Product) => Includes(ToLowerCase(p.name), ToLowerCase(q))
  }

  /** GET /api/products/search: 400 without a non-empty name; otherwise the
      records whose name contains it, ignoring case. */
  function Search(ps: seq<Product>, name: Option<string>): (r: Result<seq<Product>>)
    ensures r.Err? <==> !TruthyString(name)
    ensures r.Err? ==> r.error == BadRequest
    ensures r.Ok? ==> forall i :: 0 <= i < |ps| ==>
      (ps[i] in r.value <==> IsSubstring(ToLowerCase(name.value), ToLowerCase(ps[i].name)))
  {
    if !TruthyString(name) then Err(BadRequest)
    else
      var matches := Filter(ps, NameMatches(name.value));
      assert forall j :: 0 <= j < |matches| ==> NameMatches(name.value)(matches[j]);
      Ok(matches)
  }

  /** The search result keeps catalog order: it is the order-preserving
      selection of the matching records. */
  lemma SearchKeepsOrder(ps: seq<Product>, name: Option<string>)
    requires TruthyString(name)
    ensures Search(ps, name).Ok?
    ensures exists idx :: IsOrderedSelection(Search(ps, name).value, ps, NameMatches(name.value), idx)
  {
    FilterIsOrderedSelection(ps, NameMatches(name.value));
  }

  /** The categories present in the catalog, compared as exact strings. */
  function Categories(ps: seq<Product>): set<string> {
    set i | 0 <= i < |ps| :: ps[i].category
  }

  function HasCategory(c: string): Product -> bool {
    (p: Product) => p.category == c
  }

  /** Reference count: how many records carry category `c` exactly. */
  function CountCategory(ps: seq<Product>, c: string): nat {
    |Filter(ps, HasCategory(c))|
  }

  /** GET /api/products/stats: one pass over the catalog in order, adding one
      to the entry of each record's category (`(stats[cat] || 0) + 1`). */
  function Stats(ps: seq<Product>): (m: map<string, nat>)
    ensures m.Keys == Categories(ps)
    ensures forall c :: c in m ==> m[c] >= 1
    decreases |ps|
  {
    if ps == [] then map[]
    else
      var before := Stats(ps[..|ps| - 1]);
      var c := ps[|ps| - 1].category;
      assert ps == ps[..|ps| - 1] + [ps[|ps| - 1]];
      before[c := (if c in before then before[c] else 0) + 1]
  }

  /** Each entry of the statistics is the number of records with that category. */
  lemma {:induction false} StatsCounts(ps: seq<Product>, c: string)
    ensures c in Stats(ps) ==> Stats(ps)[c] == CountCategory(ps, c)
    ensures c !in Stats(ps) ==> CountCategory(ps, c) == 0
    decreases |ps|
  {
    if ps != [] {
      var front := ps[..|ps| - 1];
      var last := ps[|ps| - 1];
      assert ps == front + [last];
      StatsCounts(front, c);
      FilterAppend(front, [last], HasCategory(c));
    }
  }

  /** Sum of the values of a map. */
  ghost function MapSum(m: map<string, nat>): nat
    decreases |m|
  {
    if m == map[] then 0
    else
      var k :| k in m;
      assert m.Keys - {k} < m.Keys;
      m[k] + MapSum(m - {k})
  }

  /** `MapSum` may take its entries in any order. */
  lemma MapSumRemove(m: map<string, nat>, k: string)
    requires k in m
    ensures MapSum(m) == m[k] + MapSum(m - {k})
    decreases |m|
  {
    var k' :| k' in m && MapSum(m) == m[k'] + MapSum(m - {k'});
    if k' != k {
      assert (m - {k'}).Keys - {k} < m.Keys;
      assert (m - {k}).Keys - {k'} < m.Keys;
      MapSumRemove(m - {k'}, k);
      MapSumRemove(m - {k}, k');
      assert (m - {k'}) - {k} == (m - {k}) - {k'};
    }
  }

  /** Adding one to an entry (a new entry starts at 1) adds one to the sum. */
  lemma MapSumBump(m: map<string, nat>, c: string)
    ensures MapSum(m[c := (if c in m then m[c] else 0) + 1]) == MapSum(m) + 1
  {
    var m' := m[c := (if c in m then m[c] else 0) + 1];
    MapSumRemove(m', c);
    if c in m {
      MapSumRemove(m, c);
      assert m' - {c} == m - {c};
    } else {
      assert m' - {c} == m;
    }
  }

  /** The statistics account for every record exactly once. */
  lemma {:induction false} StatsSumIsSize(ps: seq<Product>)
    ensures MapSum(Stats(ps)) == |ps|
    decreases |ps|
  {
    if ps != [] {
      var front := ps[..|ps| - 1];
      var c := ps[|ps| - 1].category;
      var before := Stats(front);
      assert Stats(ps) == before[c := (if c in before then before[c] else 0) + 1];
      StatsSumIsSize(front);
      MapSumBump(before, c);
    }
  }

  /** GET /api/products/:id: the first record carrying `id`, or 404. */
  function Get(ps: seq<Product>, id: Id): (r: Result<Product>)
    ensures r.Err? <==> !IdUsed(ps, id)
    ensures r.Err? ==> r.error == NotFound
    ensures r.Ok? ==> r.value == ps[IndexOf(ps, id)]
    ensures r.Ok? ==> r.value.id == id
  {
    match Find(ps, HasId(id))
    case None => Err(NotFound)
    case Some(p) => Ok(p)
  }
}
