/** The shape shared by every `get_queryset` of the repository: start from the
    whole table and, for each query parameter in turn, narrow the current
    result with `queryset.filter(...)`. The per-parameter condition differs
    between views and is passed in as a matcher. */
module QuerySet {
  import opened Records

  /** Whether a record satisfies the filter condition built from one parameter. */
  type Matcher = (Record, Param) -> bool

  /** One `queryset.filter(condition)`: keeps the records meeting the
      condition, in their stored order. */
  function Narrow(rs: seq<Record>, p: Param, m: Matcher): (r: seq<Record>)
    ensures |r| <= |rs|
    ensures forall x :: x in r <==> x in rs && m(x, p)
  {
    if rs == [] then [] else (if m(rs[0], p) then [rs[0]] else []) + Narrow(rs[1..], p, m)
  }

  /** The record meets the condition of every parameter. */
  predicate SatisfiesAll(x: Record, ps: seq<Param>, m: Matcher) {
    forall i :: 0 <= i < |ps| ==> m(x, ps[i])
  }

  /** The loop over the parameters: each one narrows what the previous ones left. */
  function Filter(rs: seq<Record>, ps: seq<Param>, m: Matcher): (r: seq<Record>)
    ensures ps == [] ==> r == rs
    ensures |r| <= |rs|
    ensures forall x :: x in r <==> x in rs && SatisfiesAll(x, ps, m)
    decreases |ps|
  {
    if ps == [] then rs
    else
      var r := Filter(Narrow(rs, ps[0], m), ps[1..], m);
      assert forall x :: SatisfiesAll(x, ps, m) <==> m(x, ps[0]) && SatisfiesAll(x, ps[1..], m) by {
        forall x ensures SatisfiesAll(x, ps, m) <==> m(x, ps[0]) && SatisfiesAll(x, ps[1..], m) {
          if m(x, ps[0]) && SatisfiesAll(x, ps[1..], m) {
            forall i | 0 <= i < |ps| ensures m(x, ps[i]) {
              if i > 0 { assert ps[i] == ps[1..][i - 1]; }
            }
          }
        }
      }
      r
  }

  /** Reference definition: one pass over the table keeping each record that
      satisfies every parameter at once. */
  function Survivors(rs: seq<Record>, ps: seq<Param>, m: Matcher): (r: seq<Record>) {
    if rs == [] then []
    else (if SatisfiesAll(rs[0], ps, m) then [rs[0]] else []) + Survivors(rs[1..], ps, m)
  }

  /** `sub` is `s` with some records left out, the rest in the same order. */
  predicate IsSubsequence(sub: seq<Record>, s: seq<Record>)
    decreases |s|
  {
    sub == [] || (s != [] && ((sub[0] == s[0] && IsSubsequence(sub[1..], s[1..])) || IsSubsequence(sub, s[1..])))
  }

  lemma {:induction false} SurvivorsOfNone(rs: seq<Record>, m: Matcher)
    ensures Survivors(rs, [], m) == rs
  {
    if rs != [] {
      SurvivorsOfNone(rs[1..], m);
      assert [rs[0]] + rs[1..] == rs;
    }
  }

  lemma {:induction false} SurvivorsOfNarrow(rs: seq<Record>, p: Param, ps: seq<Param>, m: Matcher)
    ensures Survivors(Narrow(rs, p, m), ps, m) == Survivors(rs, [p] + ps, m)
  {
    if rs != [] {
      SurvivorsOfNarrow(rs[1..], p, ps, m);
      var x := rs[0];
      assert SatisfiesAll(x, [p] + ps, m) <==> m(x, p) && SatisfiesAll(x, ps, m) by {
        if m(x, p) && SatisfiesAll(x, ps, m) {
          forall i | 0 <= i < |[p] + ps| ensures m(x, ([p] + ps)[i]) {
            if i > 0 { assert ([p] + ps)[i] == ps[i - 1]; }
          }
        }
        if SatisfiesAll(x, [p] + ps, m) {
          assert ([p] + ps)[0] == p;
          forall i | 0 <= i < |ps| ensures m(x, ps[i]) {
            assert ([p] + ps)[i + 1] == ps[i];
          }
        }
      }
      var tail := Narrow(rs[1..], p, m);
      if m(x, p) {
        assert Narrow(rs, p, m) == [x] + tail;
        assert ([x] + tail)[0] == x;
        assert ([x] + tail)[1..] == tail;
      } else {
        assert Narrow(rs, p, m) == tail;
      }
    }
  }

  /** Narrowing parameter by parameter keeps exactly the records that satisfy
      all parameters together, in stored order: the parameters combine by AND. */
  lemma {:induction false} FilterIsConjunction(rs: seq<Record>, ps: seq<Param>, m: Matcher)
    ensures Filter(rs, ps, m) == Survivors(rs, ps, m)
    decreases |ps|
  {
    if ps == [] {
      SurvivorsOfNone(rs, m);
    } else {
      FilterIsConjunction(Narrow(rs, ps[0], m), ps[1..], m);
      SurvivorsOfNarrow(rs, ps[0], ps[1..], m);
      assert [ps[0]] + ps[1..] == ps;
    }
  }

  lemma {:induction false} SurvivorsSubsequence(rs: seq<Record>, ps: seq<Param>, m: Matcher)
    ensures IsSubsequence(Survivors(rs, ps, m), rs)
  {
    if rs != [] {
      SurvivorsSubsequence(rs[1..], ps, m);
      var rest := Survivors(rs[1..], ps, m);
      if SatisfiesAll(rs[0], ps, m) {
        assert Survivors(rs, ps, m) == [rs[0]] + rest;
        assert ([rs[0]] + rest)[1..] == rest;
      } else {
        assert Survivors(rs, ps, m) == rest;
      }
    }
  }

  /** The filtered result is the table with records left out: it keeps the
      stored order and never invents a record. */
  lemma FilterSubsequence(rs: seq<Record>, ps: seq<Param>, m: Matcher)
    ensures IsSubsequence(Filter(rs, ps, m), rs)
  {
    FilterIsConjunction(rs, ps, m);
    SurvivorsSubsequence(rs, ps, m);
  }

  /** Two parameter lists that every record of the table satisfies alike,
      under two matchers, keep the same records. */
  lemma {:induction false} SurvivorsAgree(rs: seq<Record>, ps: seq<Param>, m: Matcher, qs: seq<Param>, n: Matcher)
    requires forall i :: 0 <= i < |rs| ==> (SatisfiesAll(rs[i], ps, m) <==> SatisfiesAll(rs[i], qs, n))
    ensures Survivors(rs, ps, m) == Survivors(rs, qs, n)
  {
    if rs != [] {
      assert SatisfiesAll(rs[0], ps, m) <==> SatisfiesAll(rs[0], qs, n);
      forall i | 0 <= i < |rs[1..]|
        ensures SatisfiesAll(rs[1..][i], ps, m) <==> SatisfiesAll(rs[1..][i], qs, n)
      {
        assert rs[1..][i] == rs[i + 1];
      }
      SurvivorsAgree(rs[1..], ps, m, qs, n);
    }
  }

  lemma SatisfiesAllConcat(x: Record, ps: seq<Param>, qs: seq<Param>, m: Matcher)
    ensures SatisfiesAll(x, ps + qs, m) <==> SatisfiesAll(x, ps, m) && SatisfiesAll(x, qs, m)
  {
    if SatisfiesAll(x, ps + qs, m) {
      forall i | 0 <= i < |ps| ensures m(x, ps[i]) { assert (ps + qs)[i] == ps[i]; }
      forall i | 0 <= i < |qs| ensures m(x, qs[i]) { assert (ps + qs)[|ps| + i] == qs[i]; }
    }
  }

  /** Applying the parameters in any grouping gives the same result as
      narrowing by the first group and then by the second. */
  lemma {:induction false} FilterConcat(rs: seq<Record>, ps: seq<Param>, qs: seq<Param>, m: Matcher)
    ensures Filter(rs, ps + qs, m) == Filter(Filter(rs, ps, m), qs, m)
    decreases |ps|
  {
    if ps == [] {
      assert ps + qs == qs;
    } else {
      assert (ps + qs)[0] == ps[0];
      assert (ps + qs)[1..] == ps[1..] + qs;
      FilterConcat(Narrow(rs, ps[0], m), ps[1..], qs, m);
    }
  }

  /** The order of the parameters does not change the result. */
  lemma FilterCommutes(rs: seq<Record>, ps: seq<Param>, qs: seq<Param>, m: Matcher)
    ensures Filter(rs, ps + qs, m) == Filter(rs, qs + ps, m)
  {
    FilterIsConjunction(rs, ps + qs, m);
    FilterIsConjunction(rs, qs + ps, m);
    forall i | 0 <= i < |rs|
      ensures SatisfiesAll(rs[i], ps + qs, m) <==> SatisfiesAll(rs[i], qs + ps, m)
    {
      SatisfiesAllConcat(rs[i], ps, qs, m);
      SatisfiesAllConcat(rs[i], qs, ps, m);
    }
    SurvivorsAgree(rs, ps + qs, m, qs + ps, m);
  }

  lemma {:induction false} SurvivorsIdempotent(rs: seq<Record>, ps: seq<Param>, m: Matcher)
    ensures Survivors(Survivors(rs, ps, m), ps, m) == Survivors(rs, ps, m)
  {
    if rs != [] {
      SurvivorsIdempotent(rs[1..], ps, m);
      var rest := Survivors(rs[1..], ps, m);
      if SatisfiesAll(rs[0], ps, m) {
        assert Survivors(rs, ps, m) == [rs[0]] + rest;
        assert ([rs[0]] + rest)[0] == rs[0];
        assert ([rs[0]] + rest)[1..] == rest;
      } else {
        assert Survivors(rs, ps, m) == rest;
      }
    }
  }

  /** Filtering an already filtered result with the same parameters changes nothing. */
  lemma FilterIdempotent(rs: seq<Record>, ps: seq<Param>, m: Matcher)
    ensures Filter(Filter(rs, ps, m), ps, m) == Filter(rs, ps, m)
  {
    FilterIsConjunction(rs, ps, m);
    FilterIsConjunction(Filter(rs, ps, m), ps, m);
    SurvivorsIdempotent(rs, ps, m);
  }

  /** Two matchers that agree on every record of the table for every given
      parameter produce the same result. */
  lemma FilterAgree(rs: seq<Record>, ps: seq<Param>, m: Matcher, n: Matcher)
    requires forall x, i :: x in rs && 0 <= i < |ps| ==> (m(x, ps[i]) <==> n(x, ps[i]))
    ensures Filter(rs, ps, m) == Filter(rs, ps, n)
  {
    FilterIsConjunction(rs, ps, m);
    FilterIsConjunction(rs, ps, n);
    forall j | 0 <= j < |rs|
      ensures SatisfiesAll(rs[j], ps, m) <==> SatisfiesAll(rs[j], ps, n)
    {
      assert rs[j] in rs;
    }
    SurvivorsAgree(rs, ps, m, ps, n);
  }
}
