/** The entities the list endpoints work on. A stored record is a map from
    scalar field name to its text, plus the two JSON lists of trading
    counterparties that only institution records carry. */
module Records {

  /** One element of the `top_sellers` or `top_buyers` JSON list. */
  datatype Entry = Entry(name: string)

  datatype Record = Record(fields: map<string, string>, topSellers: seq<Entry>, topBuyers: seq<Entry>)

  /** One `(name, value)` pair of the request's query parameters, as
      `query_params.items()` yields them: one value per distinct name. */
  datatype Param = Param(name: string, value: string)

  /** A request as the list view sees it: the query string as the request's
      own `urlencode()` renders it, and the parameter pairs in request order. */
  datatype Request = Request(query: string, params: seq<Param>)

  /** The columns of one record kind: its scalar text fields, and whether it
      has the `top_sellers` and `top_buyers` JSON columns. */
  datatype Schema = Schema(fields: set<string>, hasTopLists: bool)

  /** A row of the table described by `schema`. */
  predicate Conforms(schema: Schema, r: Record) {
    r.fields.Keys == schema.fields && (!schema.hasTopLists ==> r.topSellers == [] && r.topBuyers == [])
  }

  predicate AllConform(schema: Schema, rs: seq<Record>) {
    forall i :: 0 <= i < |rs| ==> Conforms(schema, rs[i])
  }
}
