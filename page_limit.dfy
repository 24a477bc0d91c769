/**
 * The page-limiting adapter `limit_pages` of the jaffle-shop extraction script:
 * it pulls pages from a paginator one at a time, logs a progress line for each,
 * yields it, counts it, stops once a configured limit is reached, and finally
 * logs the total.
 *
 * The paginator is a finite sequence of opaque pages `P`; the limit is an
 * `Option<int>` (`None` is Python's `None`). Log calls become `Event`s, and the
 * order in which the generator logs and yields is recorded as a `Step` trace.
 */
module PageLimit {
  import opened Wrappers

  /** One log line of the adapter, with the values its message interpolates. */
  datatype Event =
    | Retrieved(page: nat, resource: string)      // "Retrieved page {n} for {resource}"
    | ReachedLimit(limit: int, resource: string)  // "Reached page limit of {limit} for {resource}"
    | Total(count: nat, resource: string)         // "Total pages processed for {resource}: {count}"

  /** One observable action of the generator: a log line, or a page handed to the consumer. */
  datatype Step<P> = Log(event: Event) | Yield(page: P)

  function Min(a: int, b: int): (m: int)
    ensures m <= a && m <= b && (m == a || m == b)
  {
    if a <= b then a else b
  }

  // ---------------------------------------------------------------------------
  // Specification: what the adapter produces, in closed form
  // ---------------------------------------------------------------------------

  /**
   * The number of pages the adapter yields from `available` pages. The limit
   * is compared only after a page has been yielded, so any limit yields at
   * least one page of a non-empty input.
   */
  function YieldCount(available: nat, limit: Option<int>): (k: nat)
    ensures k <= available
    ensures k == 0 <==> available == 0
    ensures k < available ==> limit.Some? && limit.value <= k
  {
    match limit
    case None => available
    case Some(l) =>
      if available == 0 then 0
      else if l <= 1 then 1
      else Min(l, available)
  }

  /**
   * The loop leaves by `break` (after logging the limit) rather than by
   * exhausting its input: exactly when a limit is set and the counter, after
   * the last page yielded, has reached it.
   */
  function BreaksAtLimit(available: nat, limit: Option<int>): (b: bool)
    ensures b <==> limit.Some? && 0 < YieldCount(available, limit)
                   && YieldCount(available, limit) >= limit.value
  {
    limit.Some? && 0 < available && limit.value <= available
  }

  /** The progress lines for the first `k` pages: Retrieved(1), ..., Retrieved(k). */
  function Retrievals(k: nat, resource: string): (log: seq<Event>)
    ensures |log| == k
  {
    if k == 0 then [] else Retrievals(k - 1, resource) + [Retrieved(k, resource)]
  }

  /** The log the adapter writes for an input of `available` pages. */
  function ExpectedLog(available: nat, limit: Option<int>, resource: string): (log: seq<Event>)
    ensures |log| == YieldCount(available, limit) + (if BreaksAtLimit(available, limit) then 2 else 1)
    ensures log[|log| - 1] == Total(YieldCount(available, limit), resource)
  {
    var k := YieldCount(available, limit);
    Retrievals(k, resource)
    + (if BreaksAtLimit(available, limit) then [ReachedLimit(limit.value, resource)] else [])
    + [Total(k, resource)]
  }

  /** For each page of `pages` in order: its progress line, then the page itself. */
  function Interleaved<P>(pages: seq<P>, resource: string): (run: seq<Step<P>>)
    ensures |run| == 2 * |pages|
  {
    if |pages| == 0 then []
    else Interleaved(pages[..|pages| - 1], resource)
         + [Log(Retrieved(|pages|, resource)), Yield(pages[|pages| - 1])]
  }

  /** Everything the generator does, in order, on the given input. */
  function ExpectedRun<P>(paginator: seq<P>, limit: Option<int>, resource: string): (run: seq<Step<P>>)
    ensures |run| == 2 * YieldCount(|paginator|, limit) + (if BreaksAtLimit(|paginator|, limit) then 2 else 1)
    ensures run[|run| - 1] == Log(Total(YieldCount(|paginator|, limit), resource))
  {
    var k := YieldCount(|paginator|, limit);
    Interleaved(paginator[..k], resource)
    + (if BreaksAtLimit(|paginator|, limit) then [Log(ReachedLimit(limit.value, resource))] else [])
    + [Log(Total(k, resource))]
  }

  /** The pages a trace hands to the consumer, in order. */
  function Yields<P>(run: seq<Step<P>>): (pages: seq<P>)
    ensures |pages| <= |run|
  {
    if |run| == 0 then []
    else Yields(run[..|run| - 1]) + (match run[|run| - 1] case Yield(p) => [p] case Log(_) => [])
  }

  /** The log lines a trace writes, in order. */
  function Messages<P>(run: seq<Step<P>>): (log: seq<Event>)
    ensures |log| <= |run|
  {
    if |run| == 0 then []
    else Messages(run[..|run| - 1]) + (match run[|run| - 1] case Log(e) => [e] case Yield(_) => [])
  }

  /** How many "reached page limit" lines a log holds. */
  function LimitLines(log: seq<Event>): (n: nat)
  {
    if |log| == 0 then 0
    else LimitLines(log[..|log| - 1]) + (if log[|log| - 1].ReachedLimit? then 1 else 0)
  }

  // ---------------------------------------------------------------------------
  // The adapter
  // ---------------------------------------------------------------------------

  /**
   * `limit_pages(paginator, resource_name, limit=None)`, run to completion.
   * `pages` are the yielded pages, `consumed` the number of pages pulled from
   * the paginator, `log` the log lines and `run` the interleaving of both.
   */
  method LimitPages<P>(paginator: seq<P>, resourceName: string, limit: Option<int> := None)
    returns (pages: seq<P>, consumed: nat, log: seq<Event>, run: seq<Step<P>>)
    ensures consumed == |pages| == YieldCount(|paginator|, limit)
    ensures pages == paginator[..consumed]
    ensures log == ExpectedLog(|paginator|, limit, resourceName)
    ensures run == ExpectedRun(paginator, limit, resourceName)
    ensures Yields(run) == pages && Messages(run) == log
  {
    var pageCount: nat := 0;
    var next := 0;  // position of the paginator's next page
    ghost var broke := false;
    pages, log, run := [], [], [];
    while next < |paginator|
      invariant 0 <= next <= |paginator|
      invariant pageCount == next
      invariant pages == paginator[..next]
      invariant log == Retrievals(pageCount, resourceName)
      invariant run == Interleaved(paginator[..next], resourceName)
      invariant limit.Some? && 0 < pageCount ==> pageCount < limit.value
    {
      var page := paginator[next];
      next := next + 1;
      log := log + [Retrieved(pageCount + 1, resourceName)];
      run := run + [Log(Retrieved(pageCount + 1, resourceName))];
      pages := pages + [page];
      run := run + [Yield(page)];
      pageCount := pageCount + 1;
      InterleavedStep(paginator, next, resourceName);
      if limit.Some? && pageCount >= limit.value {
        log := log + [ReachedLimit(limit.value, resourceName)];
        run := run + [Log(ReachedLimit(limit.value, resourceName))];
        broke := true;
        break;
      }
    }
    LoopExit(|paginator|, limit, next, broke);
    log := log + [Total(pageCount, resourceName)];
    run := run + [Log(Total(pageCount, resourceName))];
    consumed := next;
    RunProjections(paginator, limit, resourceName);
  }

  /** One more page pulled extends the interleaving by its progress line and the page. */
  lemma InterleavedStep<P>(paginator: seq<P>, next: nat, resource: string)
    requires 0 < next <= |paginator|
    ensures Interleaved(paginator[..next], resource)
            == Interleaved(paginator[..next - 1], resource)
               + [Log(Retrieved(next, resource)), Yield(paginator[next - 1])]
  {
    assert paginator[..next][..next - 1] == paginator[..next - 1];
  }

  /** Where the loop stops, by `break` or by running out of pages, is the closed form's count. */
  lemma LoopExit(available: nat, limit: Option<int>, next: nat, broke: bool)
    requires next <= available
    requires broke ==> limit.Some? && 0 < next && limit.value <= next
                       && (next - 1 == 0 || next - 1 < limit.value)
    requires !broke ==> next == available && (limit.Some? && 0 < next ==> next < limit.value)
    ensures next == YieldCount(available, limit)
    ensures broke == BreaksAtLimit(available, limit)
  {
  }

  // ---------------------------------------------------------------------------
  // Properties of the specification
  // ---------------------------------------------------------------------------

  /** The k-th progress line (counting from 1) carries page number k. */
  lemma {:induction false} RetrievalsAt(k: nat, resource: string, i: nat)
    requires i < k
    ensures Retrievals(k, resource)[i] == Retrieved(i + 1, resource)
  {
    if i < k - 1 {
      RetrievalsAt(k - 1, resource, i);
    }
  }

  /** In the interleaving, the progress line of page i comes right before page i. */
  lemma {:induction false} InterleavedAt<P>(pages: seq<P>, resource: string, i: nat)
    requires i < |pages|
    ensures Interleaved(pages, resource)[2 * i] == Log(Retrieved(i + 1, resource))
    ensures Interleaved(pages, resource)[2 * i + 1] == Yield(pages[i])
  {
    var n := |pages|;
    if i < n - 1 {
      InterleavedAt(pages[..n - 1], resource, i);
    }
  }

  lemma {:induction false} YieldsAppend<P>(a: seq<Step<P>>, b: seq<Step<P>>)
    ensures Yields(a + b) == Yields(a) + Yields(b)
  {
    if |b| > 0 {
      assert (a + b)[..|a + b| - 1] == a + b[..|b| - 1];
      YieldsAppend(a, b[..|b| - 1]);
    } else {
      assert a + b == a;
    }
  }

  lemma {:induction false} MessagesAppend<P>(a: seq<Step<P>>, b: seq<Step<P>>)
    ensures Messages(a + b) == Messages(a) + Messages(b)
  {
    if |b| > 0 {
      assert (a + b)[..|a + b| - 1] == a + b[..|b| - 1];
      MessagesAppend(a, b[..|b| - 1]);
    } else {
      assert a + b == a;
    }
  }

  lemma {:induction false} LimitLinesAppend(a: seq<Event>, b: seq<Event>)
    ensures LimitLines(a + b) == LimitLines(a) + LimitLines(b)
  {
    if |b| > 0 {
      assert (a + b)[..|a + b| - 1] == a + b[..|b| - 1];
      LimitLinesAppend(a, b[..|b| - 1]);
    } else {
      assert a + b == a;
    }
  }

  /** The interleaving yields exactly the given pages and logs exactly their progress lines. */
  lemma {:induction false} InterleavedProjections<P>(pages: seq<P>, resource: string)
    ensures Yields(Interleaved(pages, resource)) == pages
    ensures Messages(Interleaved(pages, resource)) == Retrievals(|pages|, resource)
  {
    var n := |pages|;
    if n > 0 {
      var pair: seq<Step<P>> := [Log(Retrieved(n, resource)), Yield(pages[n - 1])];
      InterleavedProjections(pages[..n - 1], resource);
      YieldsAppend(Interleaved(pages[..n - 1], resource), pair);
      MessagesAppend(Interleaved(pages[..n - 1], resource), pair);
      assert pair[..1] == [Log(Retrieved(n, resource))];
      assert pages[..n - 1] + [pages[n - 1]] == pages;
    }
  }

  /** The whole run yields the prefix the adapter promises and writes exactly the expected log. */
  lemma RunProjections<P>(paginator: seq<P>, limit: Option<int>, resource: string)
    ensures Yields(ExpectedRun(paginator, limit, resource)) == paginator[..YieldCount(|paginator|, limit)]
    ensures Messages(ExpectedRun(paginator, limit, resource)) == ExpectedLog(|paginator|, limit, resource)
  {
    var k := YieldCount(|paginator|, limit);
    var body := Interleaved(paginator[..k], resource);
    var stop: seq<Step<P>> :=
      if BreaksAtLimit(|paginator|, limit) then [Log(ReachedLimit(limit.value, resource))] else [];
    var last: seq<Step<P>> := [Log(Total(k, resource))];
    InterleavedProjections(paginator[..k], resource);
    YieldsAppend(body, stop);
    YieldsAppend(body + stop, last);
    MessagesAppend(body, stop);
    MessagesAppend(body + stop, last);
    assert Yields(stop) == [] by {
      if |stop| > 0 { assert stop[..0] == []; }
    }
    assert Yields(last) == [] by { assert last[..0] == []; }
    assert Messages(last) == [Total(k, resource)] by { assert last[..0] == []; }
    assert BreaksAtLimit(|paginator|, limit) ==> Messages(stop) == [ReachedLimit(limit.value, resource)] by {
      if |stop| > 0 { assert stop[..0] == []; }
    }
  }

  /** With no limit the adapter passes every page through: no truncation. */
  lemma NoLimitPassesEverything<P>(paginator: seq<P>, resource: string)
    ensures paginator[..YieldCount(|paginator|, None)] == paginator
    ensures !BreaksAtLimit(|paginator|, None)
    ensures ExpectedLog(|paginator|, None, resource)
            == Retrievals(|paginator|, resource) + [Total(|paginator|, resource)]
  {
  }

  /** With a limit L >= 1 the adapter yields the first min(L, |input|) pages. */
  lemma PositiveLimitTakesPrefix<P>(paginator: seq<P>, l: int)
    requires l >= 1
    ensures YieldCount(|paginator|, Some(l)) == Min(l, |paginator|)
    ensures BreaksAtLimit(|paginator|, Some(l)) <==> |paginator| >= l
  {
  }

  /**
   * The limit is compared only after a yield: an empty input yields nothing
   * whatever the limit, and a non-empty one yields exactly one page, then
   * logs the limit, when L <= 0.
   */
  lemma LimitCheckedAfterYield<P>(paginator: seq<P>, limit: Option<int>)
    ensures |paginator| == 0 ==> YieldCount(|paginator|, limit) == 0 && !BreaksAtLimit(|paginator|, limit)
    ensures |paginator| > 0 && limit.Some? && limit.value <= 0 ==>
              YieldCount(|paginator|, limit) == 1 && BreaksAtLimit(|paginator|, limit)
  {
  }

  /**
   * The log: Retrieved(1) .. Retrieved(k) in order for the k yielded pages,
   * then the limit line exactly when the loop broke, then the total k, last.
   */
  lemma {:induction false} LogShape(available: nat, limit: Option<int>, resource: string)
    ensures var log := ExpectedLog(available, limit, resource);
            var k := YieldCount(available, limit);
            && (forall i :: 0 <= i < k ==> log[i] == Retrieved(i + 1, resource))
            && log[|log| - 1] == Total(k, resource)
            && |log| == k + (if BreaksAtLimit(available, limit) then 2 else 1)
            && (BreaksAtLimit(available, limit) ==> log[k] == ReachedLimit(limit.value, resource))
  {
    var k := YieldCount(available, limit);
    var log := ExpectedLog(available, limit, resource);
    forall i | 0 <= i < k
      ensures log[i] == Retrieved(i + 1, resource)
    {
      RetrievalsAt(k, resource, i);
    }
  }

  /** Progress lines never announce the limit. */
  lemma {:induction false} RetrievalsHaveNoLimitLine(k: nat, resource: string)
    ensures LimitLines(Retrievals(k, resource)) == 0
  {
    if k > 0 {
      RetrievalsHaveNoLimitLine(k - 1, resource);
      var prev := Retrievals(k - 1, resource);
      var r := Retrievals(k, resource);
      assert r[..|r| - 1] == prev;
    }
  }

  /** The limit line appears at most once, and exactly when the loop left by `break`. */
  lemma ReachedLimitAtMostOnce(available: nat, limit: Option<int>, resource: string)
    ensures LimitLines(ExpectedLog(available, limit, resource))
            == if BreaksAtLimit(available, limit) then 1 else 0
  {
    var k := YieldCount(available, limit);
    var stop := if BreaksAtLimit(available, limit) then [ReachedLimit(limit.value, resource)] else [];
    var last := [Total(k, resource)];
    RetrievalsHaveNoLimitLine(k, resource);
    LimitLinesAppend(Retrievals(k, resource), stop);
    LimitLinesAppend(Retrievals(k, resource) + stop, last);
    assert LimitLines(last) == 0 by { assert last[..0] == []; }
    assert LimitLines(stop) == |stop| by {
      if |stop| > 0 { assert stop[..0] == []; }
    }
  }

  /** Each progress line is written before the page it announces is yielded. */
  lemma RetrievedBeforeItsPage<P>(paginator: seq<P>, limit: Option<int>, resource: string, i: nat)
    requires i < YieldCount(|paginator|, limit)
    ensures ExpectedRun(paginator, limit, resource)[2 * i] == Log(Retrieved(i + 1, resource))
    ensures ExpectedRun(paginator, limit, resource)[2 * i + 1] == Yield(paginator[i])
  {
    var k := YieldCount(|paginator|, limit);
    InterleavedAt(paginator[..k], resource, i);
  }

  /**
   * Once the loop breaks at the limit, nothing after the yielded prefix has any
   * influence: two paginators that agree on that prefix and both reach the
   * limit produce the same run.
   */
  lemma RunIgnoresPagesPastLimit<P>(p: seq<P>, q: seq<P>, limit: Option<int>, resource: string)
    requires BreaksAtLimit(|p|, limit) && BreaksAtLimit(|q|, limit)
    requires |q| >= YieldCount(|p|, limit)
    requires q[..YieldCount(|p|, limit)] == p[..YieldCount(|p|, limit)]
    ensures ExpectedRun(p, limit, resource) == ExpectedRun(q, limit, resource)
  {
  }
}
