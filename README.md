# Cached, filterable list endpoints — a Dafny model

The repository serves three read-only listings (institutional trade data,
metadata, reports) over HTTP. Each listing is a Django REST framework list view
that does two things:

1. **Filter builder** (`get_queryset`). It narrows the table by each query
   parameter in turn, so parameters combine by AND. The parameter `name` keeps
   a record when an entry of its `top_sellers` or `top_buyers` JSON list has
   exactly that `name`. Any other parameter is a case-insensitive substring
   test on the field of that name. In the generic view of `api/views.py` the
   value is first split on commas, and the pieces combine by OR.
2. **Cached query executor** (`list`). It builds the key
   `<prefix>-<urlencoded query string>` and looks it up in the shared cache.
   An absent, expired or empty cached list is a miss. On a miss it runs the
   filter and stores the result for 60 seconds. On a hit it returns the
   cached list without touching the table.

The same logic exists twice. `api/views.py` has the generic `CachedListView`
with a `cache_key_prefix` per view. `testing.py` has three hand-written views
with hard-coded prefixes and simpler filters: no comma splitting, and an
institutions view that only handles `name`.

## Layout

- `text.dfy`, module `Text`: ASCII lower-casing, substring search and
  Python's `str.split`, with their reference definitions and round trip.
- `records.dfy`, module `Records`: records, counterparty entries, query
  parameters, requests and table schemas.
- `queryset.dfy`, module `QuerySet`: the loop shared by every `get_queryset`.
  It is a fold that narrows the table once per parameter, parameterised by
  the per-parameter condition. It comes with its properties: AND semantics,
  subsequence, idempotence, grouping and order independence.
- `cache.dfy`, module `CacheStore`: the cache as a map from key to
  `(value, expiry)`, a `Cache` class with `Get` and `Set`, and `Serve`, the
  cache-aside step as a function of the old cache, with its hit, miss and
  repeat properties.
- `api_views.dfy`, module `ApiViews`: `api/views.py`. It holds the generic
  filter, the key prefixes, the key, and the class `CachedListView`, whose
  `List` method updates the shared cache and a ghost count of table reads.
- `legacy_views.dfy`, module `LegacyViews`: the live views of `testing.py`
  and how they relate to the generic ones.

The clock is the parameter `now`, in whole seconds. An entry written at `now`
with timeout 60 is served while the clock reads less than `now + 60`. The
table contents at request time are the parameter `db`. The request carries
its own url-encoded query string beside its parameter list, because the code
uses that string verbatim as the key suffix.

Three things the code does that the model keeps:

- The key suffix is the request's own `urlencode()` output, in the order the
  parameters arrived. Two requests with the same parameters in a different
  order get different keys.
- Django raises its own error for an unknown field, or for `name` on a
  table without counterparty lists, but only when the filter runs, that is
  on a miss. On a hit `list` returns the cached entry without filtering.
  Both `List` methods therefore require `Admissible` parameters only when
  the cache holds no live non-empty entry under the request's key.
- The cache-aside logic is written out four times, once per `list` method.
  The model keeps the generic view and the hand-written views apart, and
  states both against the one `Serve` function.

## Model

| member | source | states |
|---|---|---|
| `ApiViews.Admissible` | intro_drf/api/views.py:25-36 | a parameter the database layer accepts: any name other than `name` is a field every row of the table has; an inadmissible `name` is one no row could match, because the table has no counterparty lists |
| `ApiViews.GetQueryset` | intro_drf/api/views.py:17-37 | a record is in the result iff it is in the table and meets every parameter's condition; with no parameters the table comes back unfiltered |
| `QuerySet.Narrow` | intro_drf/api/views.py:36 | one `filter` call keeps exactly the records meeting the condition and never adds one |
| `QuerySet.Filter` | intro_drf/api/views.py:22-36 | the parameter loop keeps exactly the records that satisfy every parameter; no parameters leaves the table as it is |
| `QuerySet.FilterIsConjunction` | intro_drf/api/views.py:22-36 | narrowing parameter by parameter equals one pass keeping each record that satisfies all parameters at once, in stored order and with duplicates kept (AND) |
| `QuerySet.FilterSubsequence` | intro_drf/api/views.py:17-37 | the result is a subsequence of the table: stored order kept, nothing fabricated |
| `QuerySet.FilterConcat` | intro_drf/api/views.py:22-36 | filtering by `ps + qs` equals filtering by `ps` and then filtering that result by `qs` |
| `QuerySet.FilterCommutes` | intro_drf/api/views.py:22-36 | the order of the parameters does not change the result |
| `QuerySet.FilterIdempotent` | intro_drf/api/views.py:22-36 | filtering a filtered result again with the same parameters changes nothing |
| `QuerySet.FilterAgree` | intro_drf/testing.py:125-127 | two per-parameter conditions that agree on every record of the table give the same result; this is how the hand-written filters are compared with the generic one |
| `Text.Split` | intro_drf/api/views.py:24 | `str.split(',')` always gives at least one piece, and no piece contains a comma |
| `Text.JoinSplit` | intro_drf/api/views.py:24 | joining the pieces with commas gives back the value: splitting loses nothing |
| `Text.SplitWithoutSep` | intro_drf/api/views.py:24 | a value without a comma is the single piece `[value]` |
| `Text.SplitTrailingSep` | intro_drf/api/views.py:24 | a trailing comma adds one empty piece at the end |
| `Text.ContainsIffOccurs` | intro_drf/api/views.py:34 | the substring search behind `icontains` holds iff the text occurs at some position |
| `Text.ContainsNoLonger` | intro_drf/api/views.py:34 | a text longer than the field is never contained in it |
| `Text.IContains` | intro_drf/api/views.py:34 | the `__icontains` lookup (also intro_drf/testing.py:126) is ASCII-case-insensitive substring search: it holds whenever the lower-cased field starts with the lower-cased value, and never when the value is longer than the field |
| `Text.IContainsIffOccurs` | intro_drf/api/views.py:34 | `icontains` holds iff the lower-cased value occurs at some position of the lower-cased field |
| `Text.IContainsEmpty` | intro_drf/api/views.py:34 | the empty piece is contained in every field |
| `ApiViews.Pieces` | intro_drf/api/views.py:24 | the `',' in value` guard is redundant: the pieces are exactly `value.split(',')` |
| `ApiViews.Matches` | intro_drf/api/views.py:25-36 | the condition of one parameter: `name` holds iff some `top_sellers` or `top_buyers` entry has exactly that name; any other parameter holds iff the same-named field exists and contains, ignoring ASCII case, some comma-separated piece of the value |
| `ApiViews.AnyPieceInIff` | intro_drf/api/views.py:31-34 | the OR of `icontains` conditions built over the pieces holds iff some piece is contained in the field |
| `ApiViews.FieldParamMatches` | intro_drf/api/views.py:24-36 | a non-`name` parameter whose value has no comma keeps a record iff the same-named field exists and contains the whole value, ignoring ASCII case |
| `ApiViews.NameIsExactAndUnsplit` | intro_drf/api/views.py:25-28 | `name=Acme` does not match `Acme Corp`; `name=Acme,Zenith` matches neither `Acme` nor `Zenith`, only an entry named `Acme,Zenith` |
| `ApiViews.CommaPiecesCombineByOr` | intro_drf/api/views.py:31-36 | for `a,b` with comma-free `a` and `b`, a record is kept iff its field contains `a` or contains `b` |
| `ApiViews.TrailingCommaKeepsAll` | intro_drf/api/views.py:24 | a value ending in a comma has an empty last piece, so it keeps every record that has the field |
| `ApiViews.SectorExample` | intro_drf/api/views.py:29-37 | on `[AAA/Tech, BBB/Energy]`, `sector=energy` returns only the Energy record |
| `ApiViews.CacheKey` | intro_drf/api/views.py:40-41 | the key is the prefix, then `-`, then the query string, each recoverable by position |
| `ApiViews.KeyPrefix` | intro_drf/api/views.py:54-72 | each view's `cache_key_prefix` (lines 58, 65, 72) is non-empty, and the three begin with different letters |
| `ApiViews.CacheKeyInjective` | intro_drf/api/views.py:40-41 | under one prefix, different query strings give different keys |
| `ApiViews.ViewKeysDisjoint` | intro_drf/api/views.py:58-72 | with the prefixes `institution-trade`, `metadata` and `reports`, two different views never share a key |
| `ApiViews.CachedListView.constructor` | intro_drf/api/views.py:54-72 | a view's key prefix is its `cache_key_prefix` (lines 58, 65, 72); no table read has happened yet |
| `ApiViews.CachedListView.List` | intro_drf/api/views.py:39-52 | the result, the new cache and the table-read count are those of `Serve` on the old cache, with the key `<prefix>-<query>` and this request's filter result: one read on a miss, none on a hit; the parameters must be admissible only on a miss, since a hit never runs the filter |
| `CacheStore.Cache.Get` | intro_drf/api/views.py:42 | reads the current map through `Lookup`: the stored value iff the key is present and unexpired |
| `CacheStore.Lookup` | intro_drf/api/views.py:42 | `cache.get` gives a value iff the key is present and its expiry is after the clock, and then it is the stored value |
| `CacheStore.Cache.Set` | intro_drf/api/views.py:47 | the entry for the key is replaced by the value with expiry `now + timeout`; nothing else changes |
| `CacheStore.Store` | intro_drf/api/views.py:47 | a write adds the key, stores the value under it and keeps every other entry |
| `CacheStore.LookupAfterStore` | intro_drf/api/views.py:42-47 | round trip: a stored value reads back unchanged while the clock is before `now + timeout`, and is gone from then on |
| `CacheStore.LookupOtherAfterStore` | intro_drf/api/views.py:47 | a write under one key leaves every other key reading as before |
| `CacheStore.IsHit` | intro_drf/api/views.py:44 | the `if not result` test (also intro_drf/testing.py:100, 137, 174) sees a hit iff the key is present, unexpired and holds a non-empty list |
| `CacheStore.Serve` | intro_drf/api/views.py:42-49 | the table is queried iff the cached value is absent, expired or empty; on a hit the cached non-empty list is returned and the cache is unchanged; on a miss the computed list is returned and stored under the key with expiry `now + 60`; every other entry stays (the same step is at intro_drf/testing.py:98-109) |
| `CacheStore.ServeHit` | intro_drf/api/views.py:44-49 | a live non-empty cached value is returned unchanged, the cache is untouched and the table is not read |
| `CacheStore.ServeMiss` | intro_drf/api/views.py:44-47 | an absent, expired or empty cached value leads to one query, whose result is returned and stored under the key with expiry `now + 60`; every other entry stays |
| `CacheStore.ServeTouchesOnlyKey` | intro_drf/api/views.py:42-47 | hit or miss, every other key reads as before at every time |
| `CacheStore.RepeatWithinTimeoutHits` | intro_drf/api/views.py:42-49 | after a miss that returned a non-empty list, an identical request within 60 seconds returns the same list from the cache without querying, whatever the table then holds |
| `CacheStore.EmptyResultQueriesAgain` | intro_drf/api/views.py:44 | an empty result is stored but never served: the next identical request queries again |
| `CacheStore.ExpiredQueriesAgain` | intro_drf/api/views.py:47 | 60 seconds or more after a miss, an identical request queries again |
| `LegacyViews.ContentQueryset` | intro_drf/testing.py:121-129 | metadata filter (the reports filter is the same code): a record is kept iff, for every parameter, the named field contains the whole value ignoring ASCII case; no parameters returns the table |
| `LegacyViews.WholeValueMatches` | intro_drf/testing.py:126 | a `param__icontains=value` condition needs the field; for a value without a comma and a parameter other than `name`, it holds iff the generic condition does |
| `LegacyViews.ContentAgreesWithoutComma` | intro_drf/testing.py:158-166 | for parameters other than `name` whose values hold no comma, the reports and metadata filter equals the generic one |
| `LegacyViews.CommaIsLiteral` | intro_drf/testing.py:125-127 | with a comma they differ: a record whose field is `a` is kept by `a,b` in the generic view and dropped here |
| `LegacyViews.InstitutionsQueryset` | intro_drf/testing.py:77-92 | for `name` parameters, a record is kept iff for each of them some `top_sellers` or `top_buyers` entry has exactly that name |
| `LegacyViews.InstitutionsAgree` | intro_drf/testing.py:81-86 | on `name` parameters the institutions filter equals the generic one |
| `LegacyViews.Admissible` | intro_drf/testing.py:81-90 | a parameter the hand-written view's filter accepts: for `InstitutionsView` only `name` on a table with counterparty lists, which the generic view also accepts; for `MetadataView` and `ReportsView` (lines 125-127, 162-164) a name every row of the table has as a field |
| `LegacyViews.Queryset` | intro_drf/testing.py:77-166 | each hand-written `get_queryset` returns a subsequence of the table: for `InstitutionsView` the records with a counterparty entry of each `name` value, for `MetadataView` and `ReportsView` (lines 121-129, 158-166) the records whose named fields contain each whole value |
| `LegacyViews.LegacyKey` | intro_drf/testing.py:96-97 | the hard-coded `institution-trade-`, `metadata-` (line 134) and `reports-` (line 171) keys equal the generic view's `CacheKey` with that view's prefix, so both versions of a view share cache entries |
| `LegacyViews.LegacyListView.constructor` | intro_drf/testing.py:73-75 | a view is one of the three kinds (`InstitutionsView`, `MetadataView` at lines 117-119, `ReportsView` at lines 154-156), sharing the given cache; no table read has happened yet |
| `LegacyViews.LegacyListView.List` | intro_drf/testing.py:95-114 | on a hit, the live non-empty cached list is returned with the cache and the read count unchanged, whatever the parameters; on a miss, the parameters must be ones the view's filter accepts and the outcome is `Serve` with the hard-coded key and the view's own filter, with one read (the copies at 132-151 and 169-188 are identical) |

## Left out

- Django's ORM is abstracted as a predicate over in-memory records. This covers `Q`, JSON `__contains`, `__icontains`, database collation and `LIKE` escaping. `icontains` is ASCII case folding plus substring search. Unicode case rules are not modelled.
- Every scalar field is modelled as text. `icontains` on numeric or date fields, which the database casts to text, is not modelled.
- A counterparty entry is modelled by its `name` alone. JSON containment also matches entries with more attributes, which the model does not represent.
- Django's `JSONField` registers its own `icontains`, so a parameter named `top_sellers` or `top_buyers` is a case-insensitive search of that column's JSON text (intro_drf/api/views.py:34, intro_drf/testing.py:126). The model does not represent the JSON text of a record: `Admissible` rejects such a parameter unless the schema lists a text field of that name, and then the model searches that text field instead.
- An unknown field name makes Django raise an error when the filter runs. The model excludes it, on a miss only, with a `requires` rather than modelling the error. The same holds for `name` on a table without counterparty lists.
- `InstitutionsView.get_queryset` in `testing.py` passes a dict positionally to `filter` for any parameter other than `name`. Django rejects that, so on a miss the model admits only `name` parameters for that view; on a hit any parameters are served from the cache, as the code does.
- `urlencode` is not modelled. A request carries its encoded query string beside its parameter list. The model does not relate the two and does not claim the key is canonical.
- `QueryDict` semantics are not modelled. Only the `items()` pairs are used: one value per name, in request order.
- The cache backend is a map with explicit expiry. Pickling and lazy evaluation are not modelled: the stored value is the evaluated list. Any removal of expired keys on read is not modelled either; expired entries stay in the map but are never served.
- Capacity eviction is not modelled. Django's local-memory backend culls a third of its entries inside `set` once it holds `MAX_ENTRIES` (300 by default), and Redis may evict keys under a maxmemory policy. `Store` touches only its own key, so `ServeTouchesOnlyKey` and `RepeatWithinTimeoutHits` hold for this map; in a real backend a repeat request within 60 seconds can still miss.
- Cache-store and database failures are not modelled. Neither is any retry.
- Serialization, the HTTP `Response`, `IsAuthenticated` and the `print` logging lines are not modelled.
- Concurrent requests racing on the shared cache are not modelled.
- The commented-out block at the top of `testing.py` (lines 1-61) is not live code and is not part of this model.
