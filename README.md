# Deduplicating, depth-bounded crawl coordinator

A Dafny model of `Crawl` from a small Go web crawler (`real.go`). `Crawl(url, depth, fetcher)` works as follows:

- It returns straight away when `depth <= 0`.
- Under a mutex it checks whether `url` is already a key of the process-wide map `fetched.m`. If it is, the call returns. If not, it stores the sentinel `loading` for `url`.
- It calls `fetcher.Fetch(url)` outside the lock, then overwrites the map entry with the error the fetch returned.
- If that error is not nil, it stops.
- Otherwise it starts one goroutine per discovered link, each running `Crawl(link, depth-1)`. It then waits on a channel for one completion per goroutine.

Files:

- `crawler.dfy`, module `Crawler`, holds the data model and the coordinator:
  - `Status` is `Loading | Ok | Failed(reason)`. It replaces Go's `error` values: `nil`, the `loading` sentinel and real errors.
  - `Reply` is the triple `Fetch` returns.
  - A `Fetcher` is a function from URL to `Reply`.
  - `State` pairs the map with a log of fetched URLs.
  - `Call` is the tree of invocations one crawl performs.
  - `Visit` / `VisitAll` are the reference semantics of one schedule: children run one after another, in slice order.
  - The class `Crawler` holds the map as a field and the fetch log as a ghost field. Its method `Crawl` is written the way the source is written: check, mark `Loading`, fetch, overwrite, a spawn loop over the links, then a drain loop that takes one completion signal per child. `Crawl` is proved to compute exactly `Visit`.
- `properties.dfy`, module `CrawlProperties`, proves what the coordinator guarantees about `Visit` / `VisitAll`:
  - depth pruning;
  - dedup, including against `Loading` entries;
  - each fresh URL is recorded with its fetch's outcome;
  - no children are crawled after a failed fetch;
  - one child crawl per link on success;
  - entries are never removed or changed;
  - no lingering `Loading`;
  - at most one fetch per URL over a run;
  - every fetched URL lies within the depth bound.
- `scenarios.dfy`, module `CrawlScenarios`, proves the crawl's outcome on concrete link graphs:
  - a diamond at depth 2, which pins down the boundary arithmetic;
  - a two-page cycle;
  - a failing sibling;
  - a graph in which a URL reachable within the bound is never fetched, because a deeper path claimed its parent first.

Consequences of the code's depth test (real.go:32) and of its sibling fan-out (real.go:61-67):

- `depth` is any `int`. The code only tests `depth <= 0`, so a negative depth behaves like 0.
- A link that reaches depth 0 is pruned before the map is consulted. With the diamond example (`seed -> [a, b]`, `a -> [b, c]`, `c -> [a]`, depth 2), `c` is never fetched and never becomes a key (`DiamondAtDepthTwo`).
- The depth bound is only an upper bound. Which URLs get fetched depends on the order siblings run in, so the model proves nothing about schedule independence.

## Model

| member | source | states |
|---|---|---|
| `Crawler.Resolve` | real.go:48-53 | the status recorded after a fetch is never `Loading`; it is `Ok` exactly when the error is nil, and otherwise `Failed` with the fetch's error |
| `Crawler.Visit` | real.go:31-73 | a crawl's invocation record has the crawl's own url and depth, waits for exactly as many completions as children it started, and the fetch log only grows |
| `Crawler.VisitAll` | real.go:60-67 | crawling the links starts exactly one child invocation per link, in order, duplicates included, each at the given depth; the log only grows |
| `Crawler.Crawler.constructor` | real.go:22-25 | the shared map starts empty and nothing has been fetched |
| `Crawler.Crawler.Crawl` | real.go:31-73 | the map, the fetch log and the invocation tree after the call are exactly those of the reference semantics `Visit` from the map and log before it; the drain loop never waits for a signal no child sent and takes all of them |
| `CrawlProperties.GrowsByFetch` | real.go:44-52 | marking an absent URL and then overwriting it with its fetch's outcome adds exactly that key, logs it once, and touches no other entry |
| `CrawlProperties.GrowsTrans` | real.go:61-71 | two crawls in sequence together only grow the state: entries kept, new keys exactly the new fetches, none fetched twice |
| `CrawlProperties.VisitGrows` | real.go:37-53 | one crawl keeps every existing entry and its value, only appends to the log, adds as keys exactly the URLs it fetches, fetches none twice, and records each with its fetch's outcome |
| `CrawlProperties.VisitAllGrows` | real.go:61-71 | the same growth guarantee for crawling all the links of a page one after another |
| `CrawlProperties.VisitPruned` | real.go:32-35 | with `depth <= 0` the state is unchanged, nothing is fetched and no child is started |
| `CrawlProperties.VisitAlreadySeen` | real.go:37-42 | a URL that is already a key, whatever its status including `Loading`, is not fetched and not expanded, and the state is unchanged |
| `CrawlProperties.VisitFresh` | real.go:44-53 | a fresh URL with depth left is the first URL the call fetches and ends up a key holding exactly its fetch's outcome, never `Loading` |
| `CrawlProperties.VisitFailed` | real.go:55-58 | when the fetch fails, the only change is the failure recorded for the URL and its one fetch; no child is crawled |
| `CrawlProperties.VisitSucceeded` | real.go:60-71 | when the fetch succeeds, exactly one child crawl per discovered link is started, in slice order and one level shallower, and the same number of completions is awaited |
| `CrawlProperties.VisitKeepsEntries` | real.go:38-52 | keys are never removed and existing entries never change value |
| `CrawlProperties.VisitLeavesNoLoading` | real.go:44-52 | every `Loading` entry after the call was already `Loading` before it; a map with no `Loading` entry stays without one |
| `CrawlProperties.VisitKeepsValid` | real.go:37-48 | over a run of crawls, the fetch log never holds a URL twice, and every fetched URL is a key holding its fetch's outcome |
| `CrawlProperties.VisitWithinDepth` | real.go:31-67 | every URL a crawl fetches is reachable from its start URL by successful fetches with depth still positive on arrival |
| `CrawlProperties.VisitAllWithinDepth` | real.go:61-67 | every URL fetched while crawling a page's links is reachable, within the depth, from one of those links |
| `CrawlProperties.RunFromEmpty` | real.go:22-73 | a run from the empty map fetches each URL at most once; the map's keys are exactly the fetched URLs, each holds its fetch's outcome, and each is within the depth bound of the seed |
| `CrawlScenarios.DiamondAtDepthTwo` | real.go:32-35 | with seed->[a,b], a->[b,c], c->[a] at depth 2, exactly seed, a and b are fetched, once each, and c is pruned without becoming a key |
| `CrawlScenarios.CycleFetchedOnce` | real.go:37-42 | a two-page cycle terminates with each page fetched exactly once |
| `CrawlScenarios.FailureIsolated` | real.go:55-58 | a failing page is recorded as failed and its successful sibling is still fetched and recorded |
| `CrawlScenarios.ShortcutLeavesReachableUnfetched` | real.go:37-42 | a URL within the depth bound of the seed can stay unfetched when a deeper path claims its parent first |

## Left out

- `myFetcher.Fetch` (real.go:76-89) is not part of this model. It does HTTP through `net/http` and extracts links with the external `collectlinks` library. The fetcher is a parameter: a total function from URL to reply. Each URL is fetched at most once per run, so a fetcher whose answers change over time adds nothing to a single run.
- `main` (real.go:93-111) is not part of this model: argument parsing, `os.Exit`, the default depth 3 and the final report.
- Output is left out: every `fmt.Printf` trace in `Crawl`, and the page body, which is only printed. `Reply` keeps the body field but nothing reads it.
- Concurrency is left out: the mutex, the goroutines and the `done` channel. Each critical section is one atomic map update. The fan-out and join are sequential recursive calls in slice order, and the channel is a ghost counter of signals sent but not yet received.
- Crawler.Crawler.Crawl: proved for one schedule only, with children run in slice order. Other goroutine interleavings can fetch a different set of URLs, and no claim is made about them.
- `Loading` entries that other goroutines could observe mid-fetch are not modelled. In the sequential schedule the sentinel written before a fetch is overwritten before any other crawl runs. `VisitAlreadySeen` still covers a `Loading` entry present on entry.
