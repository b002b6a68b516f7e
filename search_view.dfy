/**
  `SearchView`: a package-name search. The query loses every `%` and `_`
  (the SQL LIKE wildcards) before it reaches the database; the exact match
  is reported on its own and left out of the other results.
 */
module SearchView {

  import opened Wrappers
  import opened PathStrings
  import opened HttpErrors

  /** `query.replace('%', '').replace('_', '')`. */
  function Sanitise(query: string): (r: string)
    ensures '%' !in r && '_' !in r
    ensures forall c :: c != '%' && c != '_' ==> multiset(r)[c] == multiset(query)[c]
  {
    var noPercent := RemoveAll(query, '%');
    var r := RemoveAll(noPercent, '_');
    assert '%' !in multiset(noPercent);
    assert '%' in r <==> '%' in multiset(r);
    r
  }

  /** A query without wildcards passes unchanged. */
  lemma SanitiseWildcardFree(query: string)
    requires '%' !in query && '_' !in query
    ensures Sanitise(query) == query
  {
    RemoveAllAbsent(query, '%');
    RemoveAllAbsent(query, '_');
  }

  /** Sanitising twice is sanitising once. */
  lemma SanitiseIdempotent(query: string)
    ensures Sanitise(Sanitise(query)) == Sanitise(query)
  {
    SanitiseWildcardFree(Sanitise(query));
  }

  /** Sanitising works piecewise, so every kept character stays in its place. */
  lemma SanitiseAppend(s: string, t: string)
    ensures Sanitise(s + t) == Sanitise(s) + Sanitise(t)
  {
    RemoveAllAppend(s, t, '%');
    RemoveAllAppend(RemoveAll(s, '%'), RemoveAll(t, '%'), '_');
  }

  /** `filter(lambda x: x != exact, others)`, keeping the order of the rest. */
  function ExcludeExact<T(==)>(others: seq<T>, exact: Option<T>): (r: seq<T>)
    ensures exact.Some? ==> exact.value !in r
    ensures exact.None? ==> r == others
    ensures multiset(r) == if exact.Some? then multiset(others)[exact.value := 0] else multiset(others)
    decreases |others|
  {
    if others == [] then []
    else
      assert others == [others[0]] + others[1..];
      var rest := ExcludeExact(others[1..], exact);
      if Some(others[0]) == exact then rest else [others[0]] + rest
  }

  /** The filter works piecewise, so the remaining rows keep their relative order. */
  lemma {:induction false} ExcludeExactAppend<T>(a: seq<T>, b: seq<T>, exact: Option<T>)
    ensures ExcludeExact(a + b, exact) == ExcludeExact(a, exact) + ExcludeExact(b, exact)
    decreases |a|
  {
    if a == [] {
      assert a + b == b;
    } else {
      assert (a + b)[0] == a[0] && (a + b)[1..] == a[1..] + b;
      ExcludeExactAppend(a[1..], b, exact);
    }
  }

  datatype SearchContext<T> = SearchContext(exact: Option<T>, other: seq<T>, query: string)

  /**
    `SearchView.get_objects`. `exactFor` runs the exact-name query inside the
    view's `try`: None is a database error, reported as 500, and Some(None)
    means no package has that name. `othersFor` is the containing-name query;
    it is lazy and only runs while the results are filtered, outside the
    `try`, so its database error escapes the view.
   */
  function SearchGetObjects<T(==, !new)>(
    query: string,
    exactFor: string -> Option<Option<T>>,
    othersFor: string -> Option<seq<T>>)
    : (r: ViewOutcome<SearchContext<T>>)
    ensures exactFor(Sanitise(query)).None? ==> r == Raised(Http500Error)
    ensures exactFor(Sanitise(query)).Some? && othersFor(Sanitise(query)).None? ==> r == Raised(UncaughtError)
    ensures r.Returned? <==> exactFor(Sanitise(query)).Some? && othersFor(Sanitise(query)).Some?
    ensures r.Returned? ==>
      var ctx := r.value;
      && ctx.query == Sanitise(query)
      && '%' !in ctx.query && '_' !in ctx.query
      && ctx.exact == exactFor(ctx.query).value
      && ctx.other == ExcludeExact(othersFor(ctx.query).value, ctx.exact)
      // the two conjuncts below follow from the equality and the contract of ExcludeExact
      && (ctx.exact.Some? ==> ctx.exact.value !in ctx.other)
      && (forall x :: x in ctx.other <==> x in othersFor(ctx.query).value && Some(x) != ctx.exact)
  {
    var q := Sanitise(query);
    match exactFor(q)
    case None => Raised(Http500Error)
    case Some(exact) =>
      match othersFor(q)
      case None => Raised(UncaughtError)
      case Some(others) =>
        var other := ExcludeExact(others, exact);
        assert forall x :: x in other <==> x in multiset(other);
        assert forall x :: x in others <==> x in multiset(others);
        Returned(SearchContext(exact, other, q))
  }
}
