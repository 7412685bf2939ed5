/** The three hand-written list views of `testing.py`. Each repeats the
    cache-aside logic of the generic view with a hard-coded key prefix; their
    filters differ from the generic one: no comma splitting, and the
    institutions view accepts only the `name` parameter. */
module LegacyViews {
  import opened Text
  import opened Records
  import opened QuerySet
  import opened CacheStore
  import ApiViews

  /** The metadata and reports condition: the field of the parameter's name
      contains the whole value, ignoring ASCII case. */
  predicate WholeValueMatches(r: Record, p: Param): (b: bool)
    ensures b ==> p.name in r.fields
    ensures p.name != ApiViews.NameParam && ',' !in p.value ==> (b <==> ApiViews.Matches(r, p))
  {
    var b := p.name in r.fields && IContains(r.fields[p.name], p.value);
    if p.name == ApiViews.NameParam then b
    else ApiViews.FieldParamMatches(r, p); b
  }

  /** `MetadataView.get_queryset`; `ReportsView.get_queryset` is the same code. */
  function ContentQueryset(rs: seq<Record>, ps: seq<Param>): (r: seq<Record>)
    ensures ps == [] ==> r == rs
    ensures forall x :: x in r <==> x in rs && forall i :: 0 <= i < |ps| ==> ps[i].name in x.fields && IContains(x.fields[ps[i].name], ps[i].value)
  {
    Filter(rs, ps, WholeValueMatches)
  }

  /** The institutions condition for a `name` parameter. */
  predicate InstitutionMatches(r: Record, p: Param) {
    ApiViews.NameMatches(r, p.value)
  }

  /** `InstitutionsView.get_queryset`, for requests whose every parameter is `name`. */
  function InstitutionsQueryset(rs: seq<Record>, ps: seq<Param>): (r: seq<Record>)
    requires forall i :: 0 <= i < |ps| ==> ps[i].name == ApiViews.NameParam
    ensures ps == [] ==> r == rs
    ensures forall x :: x in r <==> x in rs && forall i :: 0 <= i < |ps| ==> ApiViews.NameMatches(x, ps[i].value)
  {
    Filter(rs, ps, InstitutionMatches)
  }

  /** Without commas and without `name`, the metadata and reports filter
      agrees with the generic one. */
  lemma ContentAgreesWithoutComma(rs: seq<Record>, ps: seq<Param>)
    requires forall i :: 0 <= i < |ps| ==> ps[i].name != ApiViews.NameParam && ',' !in ps[i].value
    ensures ContentQueryset(rs, ps) == ApiViews.GetQueryset(rs, ps)
  {
    FilterAgree(rs, ps, WholeValueMatches, ApiViews.Matches);
  }

  /** With a comma the two differ: a record whose field is exactly `a` (say
      `Energy`) is kept by `a,b` (`Energy,Finance`) in the generic view but
      not here, where the comma is part of the text searched for. */
  lemma CommaIsLiteral(r: Record, name: string, a: string, b: string)
    requires name != ApiViews.NameParam && name in r.fields && r.fields[name] == a
    requires ',' !in a && ',' !in b
    ensures !WholeValueMatches(r, Param(name, a + "," + b)) && ApiViews.Matches(r, Param(name, a + "," + b))
  {
    ContainsNoLonger(LowerString(a), LowerString(a + "," + b));
    assert StartsWith(LowerString(a), LowerString(a));
    ApiViews.CommaPiecesCombineByOr(r, name, a, b);
  }

  /** For `name` parameters the institutions filter is the generic one. */
  lemma InstitutionsAgree(rs: seq<Record>, ps: seq<Param>)
    requires forall i :: 0 <= i < |ps| ==> ps[i].name == ApiViews.NameParam
    ensures InstitutionsQueryset(rs, ps) == ApiViews.GetQueryset(rs, ps)
  {
    FilterAgree(rs, ps, InstitutionMatches, ApiViews.Matches);
  }

  /** The parameters each hand-written view can answer. `InstitutionsView`
      passes any other parameter to `filter` as a dict, which the database
      layer rejects. */
  predicate Admissible(view: ApiViews.View, schema: Schema, p: Param): (b: bool)
    ensures b && view == ApiViews.InstitutionsView ==> ApiViews.Admissible(schema, p)
    ensures b && view != ApiViews.InstitutionsView ==> forall r :: Conforms(schema, r) ==> p.name in r.fields
  {
    if view == ApiViews.InstitutionsView then p.name == ApiViews.NameParam && schema.hasTopLists
    else p.name in schema.fields
  }

  predicate AllAdmissible(view: ApiViews.View, schema: Schema, ps: seq<Param>) {
    forall i :: 0 <= i < |ps| ==> Admissible(view, schema, ps[i])
  }

  /** Each view's own `get_queryset`. */
  function Queryset(view: ApiViews.View, rs: seq<Record>, ps: seq<Param>): (r: seq<Record>)
    requires view == ApiViews.InstitutionsView ==> forall i :: 0 <= i < |ps| ==> ps[i].name == ApiViews.NameParam
    ensures IsSubsequence(r, rs)
    ensures view == ApiViews.InstitutionsView ==> forall x :: x in r <==> x in rs && forall i :: 0 <= i < |ps| ==> ApiViews.NameMatches(x, ps[i].value)
    ensures view != ApiViews.InstitutionsView ==> forall x :: x in r <==> x in rs && forall i :: 0 <= i < |ps| ==> WholeValueMatches(x, ps[i])
  {
    if view == ApiViews.InstitutionsView then
      FilterSubsequence(rs, ps, InstitutionMatches);
      InstitutionsQueryset(rs, ps)
    else
      FilterSubsequence(rs, ps, WholeValueMatches);
      ContentQueryset(rs, ps)
  }

  /** The hard-coded cache keys of the three `list` methods. They are the
      generic view's keys: the two versions of a view read and write the
      same cache entries. */
  function LegacyKey(view: ApiViews.View, query: string): (key: string)
    ensures key == ApiViews.CacheKey(ApiViews.KeyPrefix(view), query)
  {
    match view
    case InstitutionsView => "institution-trade-" + query
    case MetadataView => "metadata-" + query
    case ReportsView => "reports-" + query
  }

  /** One of the hand-written views, sharing the process-wide cache. */
  class LegacyListView {
    const view: ApiViews.View
    const schema: Schema
    const cache: Cache
    /** How many times this view has queried the table. */
    ghost var dbReads: nat

    constructor (view: ApiViews.View, schema: Schema, cache: Cache)
      ensures this.view == view && this.schema == schema && this.cache == cache
      ensures dbReads == 0
    {
      this.view := view;
      this.schema := schema;
      this.cache := cache;
      dbReads := 0;
    }

    /** The view's `list` for the table contents `db` at time `now`. */
    method List(request: Request, now: int, db: seq<Record>) returns (result: seq<Record>)
      requires AllConform(schema, db)
      requires !IsHit(cache.entries, LegacyKey(view, request.query), now) ==> AllAdmissible(view, schema, request.params)
      modifies this, cache
      ensures var key := LegacyKey(view, request.query);
        if IsHit(old(cache.entries), key, now) then
          && result == old(cache.entries)[key].value
          && cache.entries == old(cache.entries)
          && dbReads == old(dbReads)
        else
          var o := Serve(old(cache.entries), key, now, Queryset(view, db, request.params));
          && result == o.result
          && cache.entries == o.entries
          && dbReads == old(dbReads) + 1
    {
      var key := LegacyKey(view, request.query);
      var cached := cache.Get(key, now);
      if cached.None? || cached.value == [] {
        result := Queryset(view, db, request.params);
        dbReads := dbReads + 1;
        cache.Set(key, result, Timeout, now);
      } else {
        result := cached.value;
      }
    }
  }
}
