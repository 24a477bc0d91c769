# Page-limiting adapter of the jaffle-shop extraction script

The script extracts customers, orders and products from the jaffle-shop REST API
through the dlt framework. Its one piece of self-contained logic is the
generator `limit_pages(paginator, resource_name, limit=None)`. It wraps a lazy
sequence of pages and caps how many of them are consumed:

- it keeps a counter `page_count`, starting at 0;
- for each page pulled from the paginator it logs "Retrieved page n", yields
  the page, and then increments the counter;
- after a yield, if a limit is set and the counter has reached it, it logs
  "Reached page limit" and breaks out of the loop, so no further page is pulled;
- it always ends by logging the total number of pages processed.

This project models that generator in Dafny (module `PageLimit`, file
`page_limit.dfy`). The paginator is a finite `seq<P>` of opaque pages. The limit
is an `Option<int>` (module `Wrappers`), where `None` is Python's `None`. Each log
call becomes an `Event` carrying the values its message interpolates:
`Retrieved(n, resource)`, `ReachedLimit(limit, resource)` or `Total(count, resource)`.

`LimitPages` is the generator, run until it finishes. It is an imperative loop
with the same counter, the same order of log, yield and increment, and the same
`break`. It returns four things:

- the yielded pages;
- the number of pages pulled from the paginator;
- the log;
- `run`, the interleaving of log lines and yields (`Step`s) as one observer sees them.

The method's postconditions tie each output to a closed-form specification:

- `YieldCount` gives the number of pages yielded;
- `BreaksAtLimit` says whether the loop ends by `break`;
- `ExpectedLog` gives the log;
- `ExpectedRun` gives the interleaving.

Lemmas then prove the promised properties of that specification.

The limit is compared only after a page has been yielded. So `min(L, n)` holds
only for `L >= 1` (`PositiveLimitTakesPrefix`); for `L <= 0` a non-empty input
still yields one page (`LimitCheckedAfterYield`).

`LimitPages` takes `limit` with the default `None`, as the source does, so the
two-argument call `limit_pages(paginator, resource_name)` is unlimited.

In the repository, `limit_pages` is never called: the three resources call
`client.paginate` directly (jaffle_shop_dlt.py:40, 48, 56). The model treats it as
a standalone helper.

## Model

| member | source | states |
|---|---|---|
| `PageLimit.LimitPages` | jaffle_shop_dlt.py:20-35 | The generator as a loop with a `break`. The pages it yields are the first `YieldCount` pages of the paginator, unmodified and in order. It pulls exactly as many pages as it yields, so nothing is consumed past the last yielded page. Its log is `ExpectedLog` and its log/yield interleaving is `ExpectedRun`. The pages and log are exactly what that interleaving yields and logs. |
| `PageLimit.YieldCount` | jaffle_shop_dlt.py:26-33 | The number of yielded pages is at most the number available. It is zero exactly when the input is empty. When fewer than all pages are yielded, a limit was set and the count has reached it; so with no limit every page is yielded. |
| `PageLimit.BreaksAtLimit` | jaffle_shop_dlt.py:31-33 | The loop leaves by `break` exactly when a limit is set, at least one page was yielded, and the final counter has reached the limit (`page_count >= limit`). |
| `PageLimit.ExpectedLog` | jaffle_shop_dlt.py:27-35 | The log has one line per yielded page, one more line when the loop broke at the limit, and one total line. The total line is last and carries the number of pages yielded. |
| `PageLimit.ExpectedRun` | jaffle_shop_dlt.py:26-35 | The run has two steps per yielded page, one more when the loop broke at the limit, and the total log line. The total line is the last step and carries the number of pages yielded. The order within each pair (progress line, then page) is proved in `RetrievedBeforeItsPage`. |
| `PageLimit.LoopExit` | jaffle_shop_dlt.py:29-33 | Both ways out of the loop end with the counter equal to `YieldCount`. The `break` ends it once the counter first reaches the limit; running out of pages ends it below the limit. The loop left by `break` exactly when `BreaksAtLimit` holds. |
| `PageLimit.NoLimitPassesEverything` | jaffle_shop_dlt.py:23-29 | With `limit` None, every page is yielded with no truncation. The limit branch is never taken, and the log is the progress lines for all pages followed by the total. |
| `PageLimit.PositiveLimitTakesPrefix` | jaffle_shop_dlt.py:29-33 | With a limit L >= 1, exactly min(L, n) pages are yielded. The limit line is written exactly when n >= L. |
| `PageLimit.LimitCheckedAfterYield` | jaffle_shop_dlt.py:26-31 | An empty input yields no page and takes no limit branch, whatever the limit. A non-empty input with L <= 0 yields exactly one page and then takes the limit branch. |
| `PageLimit.LogShape` | jaffle_shop_dlt.py:27-35 | The log begins with Retrieved(1), ..., Retrieved(k), in order, for the k yielded pages. Next comes ReachedLimit(L), exactly when the loop broke. The last line is Total(k), which carries the final counter. Nothing else is logged. |
| `PageLimit.ReachedLimitAtMostOnce` | jaffle_shop_dlt.py:31-35 | The log holds at most one "reached page limit" line. It holds one exactly when the loop left by `break`. |
| `PageLimit.RetrievedBeforeItsPage` | jaffle_shop_dlt.py:27-28 | For each yielded page i, the line Retrieved(i + 1) is written immediately before page i is handed to the consumer. |
| `PageLimit.RunProjections` | jaffle_shop_dlt.py:26-35 | The whole interleaved run yields exactly the adapter's prefix of the paginator. It logs exactly `ExpectedLog`. |
| `PageLimit.RunIgnoresPagesPastLimit` | jaffle_shop_dlt.py:31-33 | After a `break` at the limit, the run depends only on the yielded prefix: two paginators that agree on it and both reach the limit give the same run, so pages past the limit are never looked at. |
| `PageLimit.InterleavedProjections` | jaffle_shop_dlt.py:26-28 | The loop body's log/yield interleaving for a page sequence yields that sequence, and logs one progress line per page, numbered from 1. |
| `PageLimit.InterleavedAt` | jaffle_shop_dlt.py:27-28 | In the loop body's interleaving, position 2i is the progress line of page i. Position 2i + 1 is page i itself. |
| `PageLimit.RetrievalsAt` | jaffle_shop_dlt.py:27 | The progress line for the i-th page, counting from 0, carries `page_count + 1`, which is i + 1. |
| `PageLimit.RetrievalsHaveNoLimitLine` | jaffle_shop_dlt.py:27 | Progress lines are never "reached page limit" lines. |

## Left out

- `RESTClient` and `HeaderLinkPaginator` (jaffle_shop_dlt.py:15-18) are not modelled. They are foreign library code doing HTTP and following `next` links. The paginator is a parameter: a finite sequence of opaque pages.
- The resources `get_customers`, `get_orders` and `get_products` (jaffle_shop_dlt.py:37-59) are not modelled. They only pass through the pages of the library's `client.paginate` with fixed request parameters.
- The `@dlt.resource` and `@dlt.source` decorators and `jaffle_shop_source` (jaffle_shop_dlt.py:61-64) are not modelled. They are framework wiring that returns a tuple of generators.
- `main`, `dlt.pipeline` and `pipeline.run` (jaffle_shop_dlt.py:66-82) are not modelled. They are an external pipeline engine with a DuckDB destination, plus logging and re-raising the exception.
- The environment settings for workers and buffers and `parallelized=True` (jaffle_shop_dlt.py:8-10, 37, 45, 53) are not modelled. They only configure concurrency in the external runner.
- The logging sink and message formatting are not modelled. Each log call is an `Event` holding the values its message interpolates.
- Infinite paginators are not modelled: the input is finite. For an unbounded input the adapter stops only through the limit.
- A consumer that stops iterating part-way is not modelled. `LimitPages` describes a generator that is drained to the end.
- A paginator that raises an exception while producing a page is not modelled. In the source that error propagates out of the generator.
- The final empty pull is not counted. `consumed` counts the pages pulled, but when the paginator runs out, Python also makes one last pull that finds no page.
