/**
 The crawl's outcome under the reference semantics, proved on concrete
 link graphs: the depth arithmetic at the boundary, a cycle, a failing
 sibling, and a URL that is reachable within the bound but never fetched
 because a deeper path claimed it first under the sibling order chosen here.
 */
module CrawlScenarios {
  import opened Crawler
  import opened CrawlProperties

  const Seed: Url := "seed"
  const A: Url := "a"
  const B: Url := "b"
  const C: Url := "c"
  const D: Url := "d"

  function Page(links: seq<Url>): Reply
  {
    Reply("", links, None)
  }

  function NotFound(u: Url): Reply
  {
    Reply("", [], Some("not found: " + u))
  }

  /** seed -> [a, b], a -> [b, c], b -> [], c -> [a]. */
  function Diamond(u: Url): Reply
  {
    if u == Seed then Page([A, B])
    else if u == A then Page([B, C])
    else if u == B then Page([])
    else if u == C then Page([A])
    else NotFound(u)
  }

  /** a -> [b], b -> [a]. */
  function Cycle(u: Url): Reply
  {
    if u == A then Page([B])
    else if u == B then Page([A])
    else NotFound(u)
  }

  /** seed -> [a, b]; a fails, b -> []. */
  function OneFails(u: Url): Reply
  {
    if u == Seed then Page([A, B])
    else if u == B then Page([])
    else NotFound(u)
  }

  /** seed -> [a, c], a -> [c], c -> [d], d -> []. */
  function Shortcut(u: Url): Reply
  {
    if u == Seed then Page([A, C])
    else if u == A then Page([C])
    else if u == C then Page([D])
    else if u == D then Page([])
    else NotFound(u)
  }

  lemma VisitAllOne(s: State, x: Url, depth: int, f: Fetcher)
    ensures VisitAll(s, [x], depth, f).0 == Visit(s, x, depth, f).0
  {
    assert [x][..0] == [];
  }

  lemma VisitAllTwo(s: State, x: Url, y: Url, depth: int, f: Fetcher)
    ensures VisitAll(s, [x, y], depth, f).0 == Visit(Visit(s, x, depth, f).0, y, depth, f).0
  {
    assert [x, y][..1] == [x];
    VisitAllOne(s, x, depth, f);
  }

  /** Depth 2 from seed: seed is fetched at 2, a and b at 1; c is reached
      only at depth 0 and is pruned before the map is consulted. */
  lemma DiamondAtDepthTwo()
    ensures var t := Visit(State(map[], []), Seed, 2, Diamond).0;
      && t.log == [Seed, A, B]
      && t.fetched == map[Seed := Ok, A := Ok, B := Ok]
  {
    var s0 := State(map[], []);
    var s1 := State(map[Seed := Ok], [Seed]);
    var s2 := State(map[Seed := Ok, A := Ok], [Seed, A]);
    assert Diamond(Seed) == Page([A, B]) && Diamond(A) == Page([B, C]);
    assert State(s0.fetched[Seed := Ok], s0.log + [Seed]) == s1;
    assert State(s1.fetched[A := Ok], s1.log + [A]) == s2;
    assert State(s2.fetched[B := Ok], s2.log + [B]) == State(map[Seed := Ok, A := Ok, B := Ok], [Seed, A, B]);
    VisitAllTwo(s2, B, C, 0, Diamond);
    assert Visit(s1, A, 1, Diamond).0 == s2;
    assert Visit(s2, B, 1, Diamond).0 == State(map[Seed := Ok, A := Ok, B := Ok], [Seed, A, B]);
    VisitAllTwo(s1, A, B, 1, Diamond);
  }

  /** A two-page cycle terminates with each page fetched exactly once. */
  lemma CycleFetchedOnce()
    ensures var t := Visit(State(map[], []), A, 3, Cycle).0;
      t.log == [A, B] && t.fetched == map[A := Ok, B := Ok]
  {
    var s1 := State(map[A := Ok], [A]);
    var s2 := State(map[A := Ok, B := Ok], [A, B]);
    assert Cycle(A) == Page([B]) && Cycle(B) == Page([A]);
    assert State(map[][A := Ok], [] + [A]) == s1;
    assert State(s1.fetched[B := Ok], s1.log + [B]) == s2;
    VisitAllOne(s2, A, 1, Cycle);
    assert Visit(s1, B, 2, Cycle).0 == s2;
    VisitAllOne(s1, B, 2, Cycle);
  }

  /** A failing page records its failure and does not stop its sibling. */
  lemma FailureIsolated()
    ensures var t := Visit(State(map[], []), Seed, 2, OneFails).0;
      t.fetched == map[Seed := Ok, A := Failed("not found: " + A), B := Ok]
  {
    var s1 := State(map[Seed := Ok], [Seed]);
    var s2 := State(map[Seed := Ok, A := Failed("not found: " + A)], [Seed, A]);
    assert OneFails(Seed) == Page([A, B]) && OneFails(B) == Page([]);
    assert OneFails(A) == NotFound(A);
    assert State(map[][Seed := Ok], [] + [Seed]) == s1;
    assert State(s1.fetched[A := Failed("not found: " + A)], s1.log + [A]) == s2;
    assert Visit(s1, A, 1, OneFails).0 == s2;
    assert State(s2.fetched[B := Ok], s2.log + [B])
        == State(map[Seed := Ok, A := Failed("not found: " + A), B := Ok], [Seed, A, B]);
    VisitAllOne(s2, B, 1, OneFails);
    VisitAllTwo(s1, A, B, 1, OneFails);
  }

  /** The depth bound is an upper bound only: d is two links from seed and
      so within depth 3, yet with children crawled in slice order c is first
      claimed at depth 1 through a, its links are pruned there, and the
      shallower path seed -> c later finds c already present. */
  lemma ShortcutLeavesReachableUnfetched()
    ensures Reach(Shortcut, Seed, D, 3)
    ensures D !in Visit(State(map[], []), Seed, 3, Shortcut).0.log
  {
    assert Reach(Shortcut, D, D, 1);
    assert C in Shortcut(Seed).urls && D in Shortcut(C).urls;
    assert Reach(Shortcut, C, D, 2);
    var s1 := State(map[Seed := Ok], [Seed]);
    var s2 := State(map[Seed := Ok, A := Ok], [Seed, A]);
    var s3 := State(map[Seed := Ok, A := Ok, C := Ok], [Seed, A, C]);
    assert Shortcut(Seed) == Page([A, C]) && Shortcut(A) == Page([C]) && Shortcut(C) == Page([D]);
    assert State(map[][Seed := Ok], [] + [Seed]) == s1;
    assert State(s1.fetched[A := Ok], s1.log + [A]) == s2;
    assert State(s2.fetched[C := Ok], s2.log + [C]) == s3;
    VisitAllOne(s3, D, 0, Shortcut);
    assert Visit(s2, C, 1, Shortcut).0 == s3;
    VisitAllOne(s2, C, 1, Shortcut);
    assert Visit(s1, A, 2, Shortcut).0 == s3;
    assert Visit(s3, C, 2, Shortcut).0 == s3;
    VisitAllTwo(s1, A, C, 2, Shortcut);
  }
}
