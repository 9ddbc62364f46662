/** Filtering and paging a collection, internal/arm/collection.go: `$skip`, `$top` and the next link
    that carries a client through the pages. */
module Paging {
  import opened Wrappers
  import opened GoStrings
  import Filter
  import FilterParser

  // --- The filtering loop ---

  /** The values a filter keeps, in order. */
  function Kept(values: seq<Filter.Value>, f: FilterParser.Closure): seq<Filter.Value> {
    if values == [] then []
    else if f(values[0]) == Filter.Yes then [values[0]] + Kept(values[1..], f)
    else Kept(values[1..], f)
  }

  lemma {:induction false} KeptAppend(values: seq<Filter.Value>, v: Filter.Value, f: FilterParser.Closure)
    ensures Kept(values + [v], f) == Kept(values, f) + (if f(v) == Filter.Yes then [v] else [])
  {
    if values == [] {
      assert values + [v] == [v] && [v][1..] == [];
    } else {
      assert (values + [v])[1..] == values[1..] + [v];
      KeptAppend(values[1..], v, f);
    }
  }

  /** FILTERING keeps each value as often as it stands in the collection if the filter holds of it, and not
      at all otherwise. */
  lemma {:induction false} KeptCounts(values: seq<Filter.Value>, f: FilterParser.Closure, v: Filter.Value)
    ensures multiset(Kept(values, f))[v] == if f(v) == Filter.Yes then multiset(values)[v] else 0
  {
    if values != [] {
      var first, rest := values[0], values[1..];
      KeptCounts(rest, f, v);
      assert values == [first] + rest;
      assert multiset(values)[v] == multiset([first])[v] + multiset(rest)[v];
      var kept := if f(first) == Filter.Yes then [first] else [];
      KeptStep(values, f);
      assert multiset(kept + Kept(rest, f))[v] == multiset(kept)[v] + multiset(Kept(rest, f))[v];
    }
  }

  lemma KeptStep(values: seq<Filter.Value>, f: FilterParser.Closure)
    requires values != []
    ensures Kept(values, f) == (if f(values[0]) == Filter.Yes then [values[0]] else []) + Kept(values[1..], f)
  {
  }

  /** Of two stretches it keeps what it keeps of each, in their order. */
  lemma {:induction false} KeptOfBoth(values: seq<Filter.Value>, more: seq<Filter.Value>, f: FilterParser.Closure)
    ensures Kept(values + more, f) == Kept(values, f) + Kept(more, f)
  {
    if values == [] {
      assert values + more == more;
    } else {
      KeptOfBoth(values[1..], more, f);
      KeptStep(values, f);
      KeptStep(values + more, f);
      assert (values + more)[1..] == values[1..] + more;
      var kept := if f(values[0]) == Filter.Yes then [values[0]] else [];
      assert kept + (Kept(values[1..], f) + Kept(more, f)) == kept + Kept(values[1..], f) + Kept(more, f);
    }
  }

  /** One bad value or failing evaluation refuses the whole request. */
  method Select(values: seq<Filter.Value>, f: FilterParser.Closure) returns (r: Option<seq<Filter.Value>>)
    ensures r.Some? <==> forall k | 0 <= k < |values| :: values[k].Object? && f(values[k]) != Filter.Fail
    ensures r.Some? ==> r.value == Kept(values, f)
  {
    var filtered := [];
    for i := 0 to |values|
      invariant filtered == Kept(values[..i], f)
      invariant forall k | 0 <= k < i :: values[k].Object? && f(values[k]) != Filter.Fail
    {
      if !values[i].Object? {
        return None;
      }
      var matches := f(values[i]);
      if matches == Filter.Fail {
        return None;
      }
      assert values[..i + 1] == values[..i] + [values[i]];
      KeptAppend(values[..i], values[i], f);
      if matches == Filter.Yes {
        filtered := filtered + [values[i]];
      }
    }
    assert values[..|values|] == values;
    return Some(filtered);
  }

  // --- Query options ---

  const MAX_INT32 := 0x7FFF_FFFF

  type Query = map<string, seq<string>>

  datatype PageError = BadSkip | BadTop

  /** `collectionInteger`: absent, or given once as a number in range. */
  function CollectionInteger(query: Query, name: string, minimum: nat): Result<Option<nat>, ()> {
    if name !in query then Ok(None)
    else if |query[name]| != 1 then Err(())
    else
      match ParseInteger(query[name][0])
      case Some(n) => if minimum <= n <= MAX_INT32 then Ok(Some(n)) else Err(())
      case None => Err(())
  }

  // --- One page ---

  datatype Page<T> = Page(value: seq<T>, count: nat, next: Option<Query>)

  function Min(a: nat, b: nat): nat {
    if a < b then a else b
  }

  /** The first item of the page the query asks for. */
  function Start(n: nat, skip: Option<nat>): (start: nat)
    ensures start <= n
  {
    match skip
    case None => 0
    case Some(s) => Min(s, n)
  }

  function Stop(n: nat, start: nat, top: Option<nat>): (stop: nat)
    requires start <= n
    ensures start <= stop <= n
  {
    match top
    case None => n
    case Some(t) => Min(start + t, n)
  }

  /** The page: at most `$top` items after `$skip`, the number of all items, and a query for what is
      left, if anything is. */
  function PageOf<T>(items: seq<T>, query: Query): Result<Page<T>, PageError> {
    match (CollectionInteger(query, "$skip", 0), CollectionInteger(query, "$top", 1))
    case (Err(_), _) => Err(BadSkip)
    case (_, Err(_)) => Err(BadTop)
    case (Ok(skip), Ok(top)) =>
      var start := Start(|items|, skip);
      var stop := Stop(|items|, start, top);
      var next := if stop < |items| then Some(query["$skip" := [Itoa(stop)]]) else None;
      Ok(Page(items[start..stop], |items|, next))
  }

  /** The clamping arithmetic of `writeCollectionResponseWithHandler`. */
  method WritePage<T>(items: seq<T>, query: Query) returns (r: Result<Page<T>, PageError>)
    ensures r == PageOf(items, query)
  {
    var skipOption := CollectionInteger(query, "$skip", 0);
    if skipOption.Err? {
      return Err(BadSkip);
    }
    var skip := if skipOption.value.Some? then skipOption.value.value else 0;
    var topOption := CollectionInteger(query, "$top", 1);
    if topOption.Err? {
      return Err(BadTop);
    }
    var top := if topOption.value.Some? then topOption.value.value else -1;
    if skip > |items| {
      skip := |items|;
    }
    var end := |items|;
    if top >= 0 && top < end - skip {
      end := skip + top;
    }
    var next := None;
    if end < |items| {
      next := Some(query["$skip" := [Itoa(end)]]);
    }
    return Ok(Page(items[skip..end], |items|, next));
  }

  // --- Following the next links ---

  /** Where the walk stands: the start of the page, or the end when the query is refused. */
  function Position(n: nat, query: Query): (start: nat)
    ensures start <= n
  {
    match CollectionInteger(query, "$skip", 0)
    case Ok(skip) => Start(n, skip)
    case Err(_) => n
  }

  lemma NextPosition(n: nat, query: Query, stop: nat)
    requires stop < n
    ensures Position(n, query["$skip" := [Itoa(stop)]]) == if stop <= MAX_INT32 then stop else n
  {
    DecimalRoundTrip(stop);
  }

  /** Every page of the walk, following each next link; none when one of its queries is refused. */
  ghost function Walk<T>(items: seq<T>, query: Query): Option<seq<Page<T>>>
    decreases |items| - Position(|items|, query)
  {
    match PageOf(items, query)
    case Err(_) => None
    case Ok(page) =>
      match page.next
      case None => Some([page])
      case Some(next) =>
        NextStep(items, query);
        match Walk(items, next)
        case None => None
        case Some(more) => Some([page] + more)
  }

  lemma NextStep<T>(items: seq<T>, query: Query)
    requires PageOf(items, query).Ok? && PageOf(items, query).value.next.Some?
    ensures Position(|items|, PageOf(items, query).value.next.value) > Position(|items|, query)
  {
    var skip, top := CollectionInteger(query, "$skip", 0).value, CollectionInteger(query, "$top", 1).value;
    NextPosition(|items|, query, Stop(|items|, Start(|items|, skip), top));
  }

  /** How many pages of `t` hold `m` items: the quotient rounded up, and one, empty, page for none. */
  function PageCount(m: nat, t: nat): nat
    requires t > 0
  {
    if m == 0 then 1 else (m + t - 1) / t
  }

  lemma PageCountStep(m: nat, t: nat)
    requires t > 0
    ensures m <= t ==> PageCount(m, t) == 1
    ensures m > t ==> PageCount(m, t) == 1 + PageCount(m - t, t)
  {
    if m > 0 {
      var x := m - 1;
      assert x + t == (x / t + 1) * t + x % t;
      QuotientIsUnique(x + t, t, x / t + 1, x % t);
      if m <= t {
        QuotientIsUnique(x, t, 0, x);
      }
    }
  }

  lemma QuotientIsUnique(x: nat, t: nat, q: nat, r: nat)
    requires t > 0 && r < t && x == q * t + r
    ensures x / t == q
  {
    var d: int, u: int := x / t - q, t;
    assert d * u == r - x % t;
    assert (d >= 1 ==> d * u >= u) && (d <= -1 ==> d * u <= -u);
  }

  function Concat<T>(pages: seq<Page<T>>): seq<T> {
    if pages == [] then [] else pages[0].value + Concat(pages[1..])
  }

  /** The start of the last page. */
  function LastStart(n: nat, start: nat, t: nat): int
    requires t > 0 && start <= n
  {
    start + t * (PageCount(n - start, t) - 1)
  }

  lemma LastStartStep(n: nat, start: nat, t: nat)
    requires t > 0 && start <= n
    ensures LastStart(n, start, t) == if n - start <= t then start else LastStart(n, start + t, t)
    ensures LastStart(n, start, t) >= start
  {
    hide PageCount;
    PageCountStep(n - start, t);
    PageCountIsPositive(n - start, t);
    PagesBefore(t, PageCount(n - start, t));
  }

  lemma PagesBefore(t: nat, pages: nat)
    requires pages >= 1
    ensures t * (pages - 1) >= 0 && (pages == 1 ==> t * (pages - 1) == 0)
    ensures t * (pages - 1) == t + t * (pages - 2)
  {
  }

  lemma PageCountIsPositive(m: nat, t: nat)
    requires t > 0
    ensures PageCount(m, t) >= 1
  {
    if m > 0 {
      var x := m - 1;
      assert x + t == (x / t + 1) * t + x % t;
      QuotientIsUnique(x + t, t, x / t + 1, x % t);
    }
  }

  /** What the pages are: full ones, then the rest, each with the count of the whole. */
  ghost predicate Partition<T>(items: seq<T>, start: nat, t: nat, pages: seq<Page<T>>)
    requires t > 0 && start <= |items|
  {
    && |pages| == PageCount(|items| - start, t)
    && Concat(pages) == items[start..]
    && (forall k | 0 <= k < |pages| - 1 :: |pages[k].value| == t)
    && |pages[|pages| - 1].value| <= t
    && (forall k | 0 <= k < |pages| :: pages[k].count == |items|)
  }

  /** PAGING IS A PARTITION: from `$skip = s` and `$top = t`, following the next links yields the items
      from `s` on, each once and in order, on full pages but for the last. The walk breaks off in just
      one case: when the last page starts beyond what `$skip` can say. */
  lemma {:induction false} WalkPartitions<T>(items: seq<T>, query: Query, t: nat)
    requires CollectionInteger(query, "$skip", 0).Ok? && CollectionInteger(query, "$top", 1) == Ok(Some(t))
    ensures var n := |items|;
            var start := Position(n, query);
            && (Walk(items, query).Some? <==> LastStart(n, start, t) <= MAX_INT32)
            && (Walk(items, query).Some? ==> Partition(items, start, t, Walk(items, query).value))
    decreases |items| - Position(|items|, query)
  {
    hide Partition, ParseInteger, LastStart;
    var n := |items|;
    var start := Position(n, query);
    LastStartStep(n, start, t);
    var page := PageOf(items, query).value;
    if n - start <= t {
      LastPage(items, start, t, page);
    } else {
      var next := page.next.value;
      NextPosition(n, query, start + t);
      NextStep(items, query);
      if start + t <= MAX_INT32 {
        NextQueryReads(query, start + t);
        WalkPartitions(items, next, t);
        if Walk(items, next).Some? {
          FirstPage(items, start, t, page, Walk(items, next).value);
        }
      } else {
        NextQueryReads(query, start + t);
        LastStartStep(n, start + t, t);
      }
    }
  }

  /** The one case at its smallest: two items from the last `$skip` a query can ask for, and the
      server refuses the next link it has just given out. */
  lemma NextLinkIsRefused<T>(items: seq<T>)
    requires |items| == MAX_INT32 + 2
    ensures var query: Query := map["$skip" := [Itoa(MAX_INT32)], "$top" := [Itoa(1)]];
            && PageOf(items, query).Ok? && PageOf(items, query).value.next.Some?
            && PageOf(items, PageOf(items, query).value.next.value) == Err(BadSkip)
            && Walk(items, query).None?
  {
    hide Itoa, ParseInteger;
    DecimalRoundTrip(MAX_INT32);
    DecimalRoundTrip(1);
    var query: Query := map["$skip" := [Itoa(MAX_INT32)], "$top" := [Itoa(1)]];
    NextQueryReads(query, MAX_INT32 + 1);
  }

  lemma NextQueryReads(query: Query, stop: nat)
    ensures var next := query["$skip" := [Itoa(stop)]];
            && CollectionInteger(next, "$skip", 0) == (if stop <= MAX_INT32 then Ok(Some(stop)) else Err(()))
            && CollectionInteger(next, "$top", 1) == CollectionInteger(query, "$top", 1)
  {
    DecimalRoundTrip(stop);
  }

  lemma LastPage<T>(items: seq<T>, start: nat, t: nat, page: Page<T>)
    requires t > 0 && start <= |items| <= start + t
    requires page.value == items[start..] && page.count == |items|
    ensures Partition(items, start, t, [page])
  {
    PageCountStep(|items| - start, t);
    assert [page][1..] == [];
    assert Concat([page]) == page.value + [];
  }

  lemma FirstPage<T>(items: seq<T>, start: nat, t: nat, page: Page<T>, more: seq<Page<T>>)
    requires t > 0 && start + t < |items| && Partition(items, start + t, t, more)
    requires page.value == items[start..start + t] && page.count == |items|
    ensures Partition(items, start, t, [page] + more)
  {
    PageCountStep(|items| - start, t);
    var pages := [page] + more;
    assert pages[1..] == more;
    assert items[start..] == items[start..start + t] + items[start + t..];
    assert |items| - start - t == |items| - (start + t);
  }

  /** Without `$top` the one page holds everything from `$skip` on. */
  lemma WalkWithoutTop<T>(items: seq<T>, query: Query)
    requires CollectionInteger(query, "$skip", 0).Ok? && "$top" !in query
    ensures Walk(items, query) == Some([Page(items[Position(|items|, query)..], |items|, None)])
  {
    assert items[..|items|] == items;
  }

  // --- Which queries are refused ---

  /** The option is given once, as a number no less than its minimum that fits 32 bits. */
  ghost predicate Given(query: Query, name: string, minimum: nat, n: nat) {
    name in query && |query[name]| == 1 && SpellsInteger(query[name][0], n) && minimum <= n <= MAX_INT32
  }

  ghost predicate Readable(query: Query, name: string, minimum: nat) {
    name !in query || exists n: nat :: Given(query, name, minimum, n)
  }

  lemma OptionIsRead(query: Query, name: string, minimum: nat)
    ensures CollectionInteger(query, name, minimum) == Ok(None) <==> name !in query
    ensures forall n: nat :: CollectionInteger(query, name, minimum) == Ok(Some(n)) <==> Given(query, name, minimum, n)
    ensures CollectionInteger(query, name, minimum).Ok? <==> Readable(query, name, minimum)
  {
    hide ParseInteger, SpellsInteger;
    if name in query && |query[name]| == 1 {
      forall n: int ensures ParseInteger(query[name][0]) == Some(n) <==> SpellsInteger(query[name][0], n) {
        IntegerIsExact(query[name][0], n);
      }
    }
  }

  /** WHICH QUERIES ARE REFUSED: those whose `$skip` is not given once as a number from 0 on, and then those
      whose `$top` is not given once as a number from 1 on. */
  lemma QueryIsRefused<T>(items: seq<T>, query: Query)
    ensures PageOf(items, query) == Err(BadSkip) <==> !Readable(query, "$skip", 0)
    ensures PageOf(items, query) == Err(BadTop) <==> Readable(query, "$skip", 0) && !Readable(query, "$top", 1)
  {
    hide CollectionInteger, Readable;
    OptionIsRead(query, "$skip", 0);
    OptionIsRead(query, "$top", 1);
  }

  /** So a repeated `$skip`, and a `$top` of zero. */
  lemma RefusedQueries<T>(items: seq<T>, query: Query)
    ensures "$skip" in query && |query["$skip"]| > 1 ==> PageOf(items, query) == Err(BadSkip)
    ensures "$skip" !in query && "$top" in query && query["$top"] == [Itoa(0)] ==> PageOf(items, query) == Err(BadTop)
  {
    hide CollectionInteger, ParseInteger, Itoa;
    QueryIsRefused(items, query);
    DecimalRoundTrip(0);
    if "$top" in query && query["$top"] == [Itoa(0)] {
      forall n: nat ensures !Given(query, "$top", 1, n) {
        IntegerIsExact(Itoa(0), n);
      }
    }
  }

  /** A next link changes `$skip` alone: the filter and the page size go along. */
  lemma NextLinkKeepsOptions<T>(items: seq<T>, query: Query, key: string)
    requires PageOf(items, query).Ok? && PageOf(items, query).value.next.Some? && key != "$skip"
    ensures var next := PageOf(items, query).value.next.value;
            (key in next <==> key in query) && (key in query ==> next[key] == query[key])
  {
    hide CollectionInteger, Itoa;
  }
}
