/** The generic cached list view of `api/views.py` and its three
    configurations. `GetQueryset` turns the query parameters into a filter
    over the table; `CachedListView.List` answers a request from the shared
    cache or, on a miss, runs that filter and caches its result. */
module ApiViews {
  import opened Text
  import opened Records
  import opened QuerySet
  import opened CacheStore

  /** The parameter that searches the counterparty lists instead of a field. */
  const NameParam: string := "name"

  /** Whether `entries` holds an entry whose `name` is exactly `v`: the JSON
      containment test `<list>__contains=[{'name': v}]`. */
  predicate HasEntryNamed(entries: seq<Entry>, v: string) {
    exists i :: 0 <= i < |entries| && entries[i].name == v
  }

  /** The `name` condition: some top seller or some top buyer is named `v`. */
  predicate NameMatches(r: Record, v: string) {
    HasEntryNamed(r.topSellers, v) || HasEntryNamed(r.topBuyers, v)
  }

  /** The comma-separated pieces of a parameter value. */
  function Pieces(value: string): (pieces: seq<string>)
    ensures pieces == Split(value, ',')
  {
    if ',' in value then Split(value, ',')
    else SplitWithoutSep(value, ','); [value]
  }

  /** The `Q() | Q(field__icontains=v) | ...` condition built over the pieces. */
  predicate AnyPieceIn(field: string, pieces: seq<string>) {
    pieces != [] && (IContains(field, pieces[0]) || AnyPieceIn(field, pieces[1..]))
  }

  /** The condition one query parameter imposes on a record: `name` looks
      for a counterparty entry of exactly that name; any other parameter
      needs its field, and that field must contain some comma-separated
      piece of the value, ignoring ASCII case. */
  predicate Matches(r: Record, p: Param): (b: bool)
    ensures p.name == NameParam ==> (b <==> exists e :: e in r.topSellers + r.topBuyers && e.name == p.value)
    ensures p.name != NameParam ==> (b <==> p.name in r.fields && exists k :: 0 <= k < |Split(p.value, ',')| && IContains(r.fields[p.name], Split(p.value, ',')[k]))
  {
    if p.name == NameParam then NameMatches(r, p.value)
    else if p.name in r.fields then
      var field, pieces := r.fields[p.name], Pieces(p.value);
      AnyPieceInIff(field, pieces);
      assert AnyPieceIn(field, pieces) <==> exists k :: 0 <= k < |Split(p.value, ',')| && IContains(r.fields[p.name], Split(p.value, ',')[k]);
      AnyPieceIn(field, pieces)
    else false
  }

  /** A parameter the table can answer: `name` needs the counterparty
      lists, any other name must be a field. Anything else makes the
      database layer raise instead of returning a list. */
  predicate Admissible(schema: Schema, p: Param): (b: bool)
    ensures b && p.name != NameParam ==> forall r :: Conforms(schema, r) ==> p.name in r.fields
    ensures !b && p.name == NameParam ==> forall r :: Conforms(schema, r) ==> !Matches(r, p)
  {
    if p.name == NameParam then schema.hasTopLists else p.name in schema.fields
  }

  predicate AllAdmissible(schema: Schema, ps: seq<Param>) {
    forall i :: 0 <= i < |ps| ==> Admissible(schema, ps[i])
  }

  /** `CachedListView.get_queryset`: the table narrowed by each parameter in turn. */
  function GetQueryset(rs: seq<Record>, ps: seq<Param>): (r: seq<Record>)
    ensures ps == [] ==> r == rs
    ensures forall x :: x in r <==> x in rs && forall i :: 0 <= i < |ps| ==> Matches(x, ps[i])
  {
    Filter(rs, ps, Matches)
  }

  lemma {:induction false} AnyPieceInIff(field: string, pieces: seq<string>)
    ensures AnyPieceIn(field, pieces) <==> exists k :: 0 <= k < |pieces| && IContains(field, pieces[k])
  {
    if pieces != [] {
      AnyPieceInIff(field, pieces[1..]);
      if k :| 0 < k < |pieces| && IContains(field, pieces[k]) {
        assert pieces[1..][k - 1] == pieces[k];
      }
      if k :| 0 <= k < |pieces| - 1 && IContains(field, pieces[1..][k]) {
        assert pieces[1..][k] == pieces[k + 1];
      }
    }
  }

  /** A value without a comma is a single piece: a parameter other than
      `name` then keeps a record exactly when the field of that name
      contains the whole value, ignoring ASCII case. */
  lemma FieldParamMatches(r: Record, p: Param)
    requires p.name != NameParam
    ensures ',' !in p.value ==> (Matches(r, p) <==> p.name in r.fields && IContains(r.fields[p.name], p.value))
  {
    if ',' !in p.value {
      SplitWithoutSep(p.value, ',');
    }
  }

  /** `name=Acme` does not match an entry named `Acme Corp`, and
      `name=Acme,Zenith` is not split: it matches neither `Acme` nor `Zenith`. */
  lemma NameIsExactAndUnsplit()
    ensures !Matches(Record(map[], [Entry("Acme Corp")], []), Param(NameParam, "Acme"))
    ensures !Matches(Record(map[], [Entry("Acme")], [Entry("Zenith")]), Param(NameParam, "Acme,Zenith"))
    ensures Matches(Record(map[], [], [Entry("Acme,Zenith")]), Param(NameParam, "Acme,Zenith"))
  {
    assert Record(map[], [], [Entry("Acme,Zenith")]).topBuyers[0].name == "Acme,Zenith";
  }

  /** A value ending in a comma has an empty last piece, which every field
      contains: such a parameter keeps every record that has the field. */
  lemma TrailingCommaKeepsAll(r: Record, name: string, value: string)
    requires name != NameParam && name in r.fields
    ensures Matches(r, Param(name, value + [',']))
  {
    SplitTrailingSep(value, ',');
    var pieces := Split(value + [','], ',');
    assert pieces[|pieces| - 1] == "";
    IContainsEmpty(r.fields[name]);
    FieldParamMatches(r, Param(name, value + [',']));
  }

  /** Two records, `sector=energy`: only the Energy record is returned. */
  lemma SectorExample()
    ensures var tech := Record(map["symbol" := "AAA", "sector" := "Tech"], [], []);
      var energy := Record(map["symbol" := "BBB", "sector" := "Energy"], [], []);
      GetQueryset([tech, energy], [Param("sector", "energy")]) == [energy]
  {
    var tech := Record(map["symbol" := "AAA", "sector" := "Tech"], [], []);
    var energy := Record(map["symbol" := "BBB", "sector" := "Energy"], [], []);
    var p := Param("sector", "energy");
    SectorExampleMatches(tech, energy, p);
    OneParamKeepsSecond(tech, energy, p);
  }

  lemma OneParamKeepsSecond(x: Record, y: Record, p: Param)
    requires !Matches(x, p) && Matches(y, p)
    ensures GetQueryset([x, y], [p]) == [y]
  {
  }

  lemma SectorExampleMatches(tech: Record, energy: Record, p: Param)
    requires tech == Record(map["symbol" := "AAA", "sector" := "Tech"], [], [])
    requires energy == Record(map["symbol" := "BBB", "sector" := "Energy"], [], [])
    requires p == Param("sector", "energy")
    ensures !Matches(tech, p) && Matches(energy, p)
  {
    FieldParamMatches(tech, p);
    FieldParamMatches(energy, p);
    LowerEnergy();
    ContainsNoLonger(LowerString("Tech"), "energy");
    assert StartsWith("energy", "energy");
  }

  lemma LowerEnergy()
    ensures LowerString("Energy") == "energy" && LowerString("energy") == "energy"
  {
    var low := LowerString("Energy");
    assert low[0] == Lower('E') == 'e';
  }

  /** `sector=Tech,Energy` ORs its pieces: a record is kept when its field
      contains either piece. */
  lemma CommaPiecesCombineByOr(r: Record, name: string, a: string, b: string)
    requires name != NameParam && name in r.fields && ',' !in a && ',' !in b
    ensures Matches(r, Param(name, a + "," + b)) <==> IContains(r.fields[name], a) || IContains(r.fields[name], b)
  {
    SplitConcatPiece(a, b);
    var pieces := Split(a + "," + b, ',');
    assert pieces[0] == a && pieces[1] == b;
    FieldParamMatches(r, Param(name, a + "," + b));
  }

  lemma {:induction false} SplitConcatPiece(a: string, b: string)
    requires ',' !in a && ',' !in b
    ensures Split(a + "," + b, ',') == [a, b]
    decreases |a|
  {
    if a == [] {
      assert a + "," + b == [','] + b;
      assert ([','] + b)[1..] == b;
      SplitWithoutSep(b, ',');
    } else {
      assert (a + "," + b)[1..] == a[1..] + "," + b;
      assert ',' !in a[1..];
      SplitConcatPiece(a[1..], b);
      assert [a[0]] + a[1..] == a;
    }
  }

  /** The three views built on `CachedListView`. */
  datatype View = InstitutionsView | MetadataView | ReportsView

  /** Each view's `cache_key_prefix`; the three begin with different
      letters, so no key of one view is a key of another. */
  function KeyPrefix(view: View): (prefix: string)
    ensures |prefix| > 0
    ensures prefix[0] == match view case InstitutionsView => 'i' case MetadataView => 'm' case ReportsView => 'r'
  {
    match view
    case InstitutionsView => "institution-trade"
    case MetadataView => "metadata"
    case ReportsView => "reports"
  }

  /** The cache key `<prefix>-<urlencoded query string>`. */
  function CacheKey(prefix: string, query: string): (key: string)
    ensures |key| == |prefix| + 1 + |query|
    ensures key[..|prefix|] == prefix && key[|prefix|] == '-' && key[|prefix| + 1..] == query
  {
    prefix + "-" + query
  }

  /** Under one prefix, different query strings get different keys. */
  lemma CacheKeyInjective(prefix: string, q1: string, q2: string)
    requires CacheKey(prefix, q1) == CacheKey(prefix, q2)
    ensures q1 == q2
  {
  }

  /** Different views never share a cache key, whatever the query strings. */
  lemma ViewKeysDisjoint(v1: View, v2: View, q1: string, q2: string)
    requires v1 != v2
    ensures CacheKey(KeyPrefix(v1), q1) != CacheKey(KeyPrefix(v2), q2)
  {
  }

  /** One configured list view sharing the process-wide cache. */
  class CachedListView {
    const prefix: string
    const schema: Schema
    const cache: Cache
    /** How many times this view has queried the table. */
    ghost var dbReads: nat

    constructor (view: View, schema: Schema, cache: Cache)
      ensures prefix == KeyPrefix(view) && this.schema == schema && this.cache == cache
      ensures dbReads == 0
    {
      prefix := KeyPrefix(view);
      this.schema := schema;
      this.cache := cache;
      dbReads := 0;
    }

    /** `CachedListView.list` for the table contents `db` at time `now`. */
    method List(request: Request, now: int, db: seq<Record>) returns (result: seq<Record>)
      requires AllConform(schema, db)
      requires !IsHit(cache.entries, CacheKey(prefix, request.query), now) ==> AllAdmissible(schema, request.params)
      modifies this, cache
      ensures var o := Serve(old(cache.entries), CacheKey(prefix, request.query), now, GetQueryset(db, request.params));
        && result == o.result
        && cache.entries == o.entries
        && dbReads == old(dbReads) + (if o.queried then 1 else 0)
    {
      var key := CacheKey(prefix, request.query);
      var cached := cache.Get(key, now);
      if cached.None? || cached.value == [] {
        result := GetQueryset(db, request.params);
        dbReads := dbReads + 1;
        cache.Set(key, result, Timeout, now);
      } else {
        result := cached.value;
      }
    }
  }
}
