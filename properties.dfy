/**
 What the crawl coordinator guarantees, proved about its reference semantics
 `Visit` / `VisitAll` (and so, through `Crawler.Crawl`'s postcondition, about
 the method itself).
 */
module CrawlProperties {
  import opened Crawler

  /** No URL occurs twice in `q`. */
  ghost predicate NoDup(q: seq<Url>)
  {
    forall i, j :: 0 <= i < j < |q| ==> q[i] != q[j]
  }

  /** The URLs fetched on the way from `s` to `t`. */
  ghost function Added(s: State, t: State): seq<Url>
    requires |s.log| <= |t.log|
  {
    t.log[|s.log|..]
  }

  /** How one crawl may change the state: entries already present keep their
      values, the log only grows, the keys added are exactly the URLs fetched,
      each fetched once, and each recorded with the outcome of its fetch. */
  ghost predicate Grows(s: State, t: State, f: Fetcher)
  {
    && (forall k :: k in s.fetched ==> k in t.fetched && t.fetched[k] == s.fetched[k])
    && |s.log| <= |t.log| && t.log[..|s.log|] == s.log
    && (forall k :: k in t.fetched && k !in s.fetched <==> k in Added(s, t))
    && NoDup(Added(s, t))
    && (forall k :: k in Added(s, t) ==> k in t.fetched && t.fetched[k] == Resolve(f(k).err))
  }

  /** The state of a whole run: no URL fetched twice, and every fetched URL is a
      key recorded with the outcome of its fetch. */
  ghost predicate Valid(s: State, f: Fetcher)
  {
    && NoDup(s.log)
    && (forall u :: u in s.log ==> u in s.fetched && s.fetched[u] == Resolve(f(u).err))
  }

  /** No URL is left marked in progress. */
  ghost predicate NoLoading(m: map<Url, Status>)
  {
    forall k :: k in m ==> m[k] != Loading
  }

  /** `to` is within `d` levels of `from`: reachable by following links of
      pages whose fetch succeeded, each hop consuming one level, and the last
      page still reached with a positive depth. */
  ghost predicate Reach(f: Fetcher, from: Url, to: Url, d: int)
    decreases d
  {
    d > 0 && (to == from || (f(from).err.None? && exists v :: v in f(from).urls && Reach(f, v, to, d - 1)))
  }

  lemma NoDupConcat(a: seq<Url>, b: seq<Url>)
    requires NoDup(a) && NoDup(b)
    requires forall x :: x in a ==> x !in b
    ensures NoDup(a + b)
  {
    var c := a + b;
    forall i, j | 0 <= i < j < |c| ensures c[i] != c[j] {
      if j < |a| {
      } else if i >= |a| {
        assert c[i] == b[i - |a|] && c[j] == b[j - |a|];
      } else {
        assert c[i] in a && c[j] in b;
      }
    }
  }

  lemma GrowsRefl(s: State, f: Fetcher)
    ensures Grows(s, s, f)
  {
    assert Added(s, s) == [];
  }

  /** Fetching a URL absent from the map and recording its outcome is a
      growth step. */
  lemma GrowsByFetch(s: State, url: Url, f: Fetcher)
    requires url !in s.fetched
    ensures Grows(s, State(s.fetched[url := Resolve(f(url).err)], s.log + [url]), f)
  {
    var t := State(s.fetched[url := Resolve(f(url).err)], s.log + [url]);
    assert Added(s, t) == [url];
  }

  lemma GrowsTrans(s: State, t: State, u: State, f: Fetcher)
    requires Grows(s, t, f) && Grows(t, u, f)
    ensures Grows(s, u, f)
  {
    assert u.log[..|t.log|][..|s.log|] == u.log[..|s.log|];
    assert Added(s, u) == Added(s, t) + Added(t, u) by {
      assert u.log == t.log + Added(t, u);
    }
    forall x | x in Added(s, t) ensures x !in Added(t, u) {
      assert x in t.fetched;
    }
    NoDupConcat(Added(s, t), Added(t, u));
  }

  /** Each crawl only grows the state. */
  lemma {:induction false} VisitGrows(s: State, url: Url, depth: int, f: Fetcher)
    decreases depth, 0
    ensures Grows(s, Visit(s, url, depth, f).0, f)
  {
    if depth <= 0 || url in s.fetched {
      GrowsRefl(s, f);
    } else {
      var reply := f(url);
      var s1 := State(s.fetched[url := Resolve(reply.err)], s.log + [url]);
      GrowsByFetch(s, url, f);
      if reply.err.None? {
        VisitAllGrows(s1, reply.urls, depth - 1, f);
        GrowsTrans(s, s1, VisitAll(s1, reply.urls, depth - 1, f).0, f);
      }
    }
  }

  /** Crawling a list of siblings only grows the state. */
  lemma {:induction false} VisitAllGrows(s: State, urls: seq<Url>, depth: int, f: Fetcher)
    decreases depth, 1, |urls|
    ensures Grows(s, VisitAll(s, urls, depth, f).0, f)
  {
    if urls == [] {
      GrowsRefl(s, f);
    } else {
      var s1 := VisitAll(s, urls[..|urls| - 1], depth, f).0;
      VisitAllGrows(s, urls[..|urls| - 1], depth, f);
      VisitGrows(s1, urls[|urls| - 1], depth, f);
      GrowsTrans(s, s1, Visit(s1, urls[|urls| - 1], depth, f).0, f);
    }
  }

  /** Depth guard: with `depth <= 0` nothing is read, written or fetched. */
  lemma VisitPruned(s: State, url: Url, depth: int, f: Fetcher)
    requires depth <= 0
    ensures Visit(s, url, depth, f) == (s, Call(url, depth, [], 0))
  {
  }

  /** Dedup: a URL already in the map, whatever its status (`Loading`
      included), is neither fetched nor expanded, and the state is unchanged. */
  lemma VisitAlreadySeen(s: State, url: Url, depth: int, f: Fetcher)
    requires url in s.fetched
    ensures Visit(s, url, depth, f) == (s, Call(url, depth, [], 0))
  {
  }

  /** A fresh URL with depth left is fetched first and ends up recorded with
      its fetch's outcome, never `Loading`. */
  lemma VisitFresh(s: State, url: Url, depth: int, f: Fetcher)
    requires depth > 0 && url !in s.fetched
    ensures var t := Visit(s, url, depth, f).0;
      && |t.log| > |s.log| && t.log[|s.log|] == url
      && url in t.fetched && t.fetched[url] == Resolve(f(url).err) && t.fetched[url] != Loading
  {
    var t := Visit(s, url, depth, f).0;
    var s1 := State(s.fetched[url := Resolve(f(url).err)], s.log + [url]);
    VisitGrows(s, url, depth, f);
    if f(url).err.None? {
      assert t == VisitAll(s1, f(url).urls, depth - 1, f).0;
      VisitAllGrows(s1, f(url).urls, depth - 1, f);
      assert t.log[..|s1.log|] == s1.log;
      assert t.log[|s.log|] == s1.log[|s.log|];
    }
    assert Added(s, t)[0] == url;
  }

  /** A failed fetch records the failure and crawls no child. */
  lemma VisitFailed(s: State, url: Url, depth: int, f: Fetcher)
    requires depth > 0 && url !in s.fetched && f(url).err.Some?
    ensures Visit(s, url, depth, f)
         == (State(s.fetched[url := Failed(f(url).err.value)], s.log + [url]), Call(url, depth, [], 0))
  {
  }

  /** A successful fetch starts exactly one crawl per discovered link, in
      order and duplicates included, each one level shallower, and waits for
      as many completions as it started. */
  lemma VisitSucceeded(s: State, url: Url, depth: int, f: Fetcher)
    requires depth > 0 && url !in s.fetched && f(url).err.None?
    ensures var c := Visit(s, url, depth, f).1;
      && |c.children| == |f(url).urls| == c.joined
      && forall i :: 0 <= i < |c.children| ==> c.children[i].url == f(url).urls[i] && c.children[i].depth == depth - 1
  {
  }

  /** Entries are never removed and never change value: only URLs absent
      when checked are written. */
  lemma VisitKeepsEntries(s: State, url: Url, depth: int, f: Fetcher)
    ensures var t := Visit(s, url, depth, f).0;
      && s.fetched.Keys <= t.fetched.Keys
      && forall k :: k in s.fetched ==> t.fetched[k] == s.fetched[k]
  {
    VisitGrows(s, url, depth, f);
  }

  /** The `Loading` sentinel never outlives the call that wrote it: every
      `Loading` entry afterwards was already there. */
  lemma VisitLeavesNoLoading(s: State, url: Url, depth: int, f: Fetcher)
    ensures var t := Visit(s, url, depth, f).0;
      forall k :: k in t.fetched && t.fetched[k] == Loading ==> k in s.fetched && s.fetched[k] == Loading
    ensures NoLoading(s.fetched) ==> NoLoading(Visit(s, url, depth, f).0.fetched)
  {
    var t := Visit(s, url, depth, f).0;
    VisitGrows(s, url, depth, f);
    forall k | k in t.fetched && k !in s.fetched ensures t.fetched[k] != Loading {
      assert k in Added(s, t);
    }
  }

  /** At most once: a crawl started in a state where no URL was fetched twice
      and every fetched URL is recorded ends in such a state too. */
  lemma VisitKeepsValid(s: State, url: Url, depth: int, f: Fetcher)
    requires Valid(s, f)
    ensures Valid(Visit(s, url, depth, f).0, f)
  {
    var t := Visit(s, url, depth, f).0;
    VisitGrows(s, url, depth, f);
    assert t.log == s.log + Added(s, t);
    forall x | x in s.log ensures x !in Added(s, t) {
      assert x in s.fetched;
    }
    NoDupConcat(s.log, Added(s, t));
  }

  /** Some URL of `urls` reaches `to` within `d` levels. */
  ghost predicate ReachFromSome(f: Fetcher, urls: seq<Url>, to: Url, d: int)
  {
    exists v :: v in urls && Reach(f, v, to, d)
  }

  /** A one-step crawl followed by crawling the children: the URLs fetched
      are the parent followed by those the children fetched. */
  lemma AddedAfterFetch(s: State, s1: State, t: State, url: Url, f: Fetcher)
    requires s1 == State(s.fetched[url := Resolve(f(url).err)], s.log + [url])
    requires Grows(s1, t, f)
    ensures t.log[|s.log|..] == [url] + t.log[|s1.log|..]
  {
    assert t.log == s1.log + t.log[|s1.log|..];
  }

  /** Depth bound: every URL a crawl fetches lies within `depth` levels of
      the URL it started from. */
  lemma {:induction false} VisitWithinDepth(s: State, url: Url, depth: int, f: Fetcher)
    decreases depth, 0
    ensures var t := Visit(s, url, depth, f).0;
      forall k :: k in t.log[|s.log|..] ==> Reach(f, url, k, depth)
  {
    var t := Visit(s, url, depth, f).0;
    if depth > 0 && url !in s.fetched {
      var reply := f(url);
      var s1 := State(s.fetched[url := Resolve(reply.err)], s.log + [url]);
      if reply.err.Some? {
        assert t.log[|s.log|..] == [url];
      } else {
        assert t == VisitAll(s1, reply.urls, depth - 1, f).0;
        VisitAllWithinDepth(s1, reply.urls, depth - 1, f);
        VisitAllGrows(s1, reply.urls, depth - 1, f);
        AddedAfterFetch(s, s1, t, url, f);
        forall k | k in t.log[|s.log|..] ensures Reach(f, url, k, depth) {
          if k != url {
            assert k in t.log[|s1.log|..];
            assert ReachFromSome(f, reply.urls, k, depth - 1);
          }
        }
      }
    } else {
      assert t.log[|s.log|..] == [];
    }
  }

  /** Depth bound for siblings: every URL fetched lies within `depth` levels
      of one of them. */
  lemma {:induction false} VisitAllWithinDepth(s: State, urls: seq<Url>, depth: int, f: Fetcher)
    decreases depth, 1, |urls|
    ensures var t := VisitAll(s, urls, depth, f).0;
      forall k :: k in t.log[|s.log|..] ==> ReachFromSome(f, urls, k, depth)
  {
    var t := VisitAll(s, urls, depth, f).0;
    if urls == [] {
      assert t.log[|s.log|..] == [];
    } else {
      var init, last := urls[..|urls| - 1], urls[|urls| - 1];
      var s1 := VisitAll(s, init, depth, f).0;
      assert t == Visit(s1, last, depth, f).0;
      VisitAllWithinDepth(s, init, depth, f);
      VisitWithinDepth(s1, last, depth, f);
      VisitGrows(s1, last, depth, f);
      SplitAdded(s, s1, t);
      forall k | k in t.log[|s.log|..] ensures ReachFromSome(f, urls, k, depth) {
        if k in s1.log[|s.log|..] {
          assert ReachFromSome(f, init, k, depth);
          var v :| v in init && Reach(f, v, k, depth);
          assert v in urls;
        } else {
          assert k in t.log[|s1.log|..];
          assert last in urls;
        }
      }
    }
  }

  /** The URLs fetched over two consecutive stretches of a run. */
  lemma SplitAdded(s: State, s1: State, t: State)
    requires |s.log| <= |s1.log| <= |t.log| && t.log[..|s1.log|] == s1.log
    ensures t.log[|s.log|..] == s1.log[|s.log|..] + t.log[|s1.log|..]
  {
    assert t.log == s1.log + t.log[|s1.log|..];
  }

  /** A whole run from an empty map: every URL is fetched at most once, the
      keys of the map are exactly the fetched URLs, each recorded with its
      fetch's outcome (none left `Loading`), and each within the depth bound
      of the seed. */
  lemma RunFromEmpty(seed: Url, depth: int, f: Fetcher)
    ensures var t := Visit(State(map[], []), seed, depth, f).0;
      && NoDup(t.log)
      && (forall k :: k in t.fetched <==> k in t.log)
      && (forall k :: k in t.fetched ==> t.fetched[k] == Resolve(f(k).err))
      && (forall k :: k in t.log ==> Reach(f, seed, k, depth))
  {
    var s := State(map[], []);
    var t := Visit(s, seed, depth, f).0;
    VisitGrows(s, seed, depth, f);
    VisitWithinDepth(s, seed, depth, f);
    assert Added(s, t) == t.log;
  }
}
