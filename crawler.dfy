/**
 The deduplicating, depth-bounded crawl coordinator.

 The shared map from URL to status is a field of class `Crawler`; `Crawl`
 checks and marks it, fetches, records the fetch's outcome and then crawls
 every discovered link one level deeper. The goroutines of the original are
 replaced by one legal schedule: children run one after the other, in the
 order the fetcher returned them. `Visit` and `VisitAll` are the reference
 semantics of that schedule; `Crawl` is proved to compute exactly them.
 */
module Crawler {

  type Url = string

  datatype Option<T> = None | Some(value: T)

  /** What the shared map holds for a URL: the in-flight sentinel, or the
      outcome of its one fetch (the original stores a Go `error`, `nil` for
      success). */
  datatype Status = Loading | Ok | Failed(reason: string)

  /** The three results of `Fetcher.Fetch`: a body, the links found on the
      page and an error (`None` stands for `nil`). */
  datatype Reply = Reply(body: string, urls: seq<Url>, err: Option<string>)

  /** The fetch capability, seen from the coordinator: one reply per URL. */
  type Fetcher = Url -> Reply

  /** The shared map together with the log of every URL fetched so far, in
      fetch order. */
  datatype State = State(fetched: map<Url, Status>, log: seq<Url>)

  /** One invocation of `Crawl`: its arguments, the invocations it started
      for its children, in order, and how many completions it waited for. */
  datatype Call = Call(url: Url, depth: int, children: seq<Call>, joined: nat)

  /** The status recorded once a fetch has returned `err`. */
  function Resolve(err: Option<string>): (st: Status)
    ensures st != Loading
    ensures st == Ok <==> err == None
    ensures st.Failed? ==> err == Some(st.reason)
  {
    match err
    case None => Ok
    case Some(e) => Failed(e)
  }

  /** The reference semantics of `Crawl(url, depth)` started in state `s`:
      the final state and the invocation it amounts to. */
  function Visit(s: State, url: Url, depth: int, f: Fetcher): (r: (State, Call))
    decreases depth, 0
    ensures r.1.url == url && r.1.depth == depth
    ensures |r.1.children| == r.1.joined
    ensures |s.log| <= |r.0.log|
  {
    if depth <= 0 || url in s.fetched then (s, Call(url, depth, [], 0))
    else
      var reply := f(url);
      var s1 := State(s.fetched[url := Resolve(reply.err)], s.log + [url]);
      if reply.err.Some? then (s1, Call(url, depth, [], 0))
      else
        var (s2, kids) := VisitAll(s1, reply.urls, depth - 1, f);
        (s2, Call(url, depth, kids, |kids|))
  }

  /** The reference semantics of crawling `urls` one after the other at
      `depth`, each child starting in the state the previous one left. */
  function VisitAll(s: State, urls: seq<Url>, depth: int, f: Fetcher): (r: (State, seq<Call>))
    decreases depth, 1, |urls|
    ensures |r.1| == |urls|
    ensures forall i :: 0 <= i < |urls| ==> r.1[i].url == urls[i] && r.1[i].depth == depth
    ensures |s.log| <= |r.0.log|
  {
    if urls == [] then (s, [])
    else
      var (s1, calls) := VisitAll(s, urls[..|urls| - 1], depth, f);
      var (s2, last) := Visit(s1, urls[|urls| - 1], depth, f);
      (s2, calls + [last])
  }

  /** The process-wide map of the original, made an object. */
  class Crawler {
    /** URL -> status of every URL seen so far. */
    var fetched: map<Url, Status>
    /** Every URL handed to the fetcher, in order. */
    ghost var log: seq<Url>

    ghost function Snapshot(): State
      reads this
    {
      State(fetched, log)
    }

    /** The map starts empty; nothing has been fetched. */
    constructor ()
      ensures fetched == map[] && log == []
    {
      fetched := map[];
      log := [];
    }

    /** Crawl `url` and, on success, every link found on it, down to `depth`.
        Returns (as a ghost) the invocation tree it performed. */
    method Crawl(url: Url, depth: int, fetcher: Fetcher) returns (ghost call: Call)
      modifies this
      decreases depth
      ensures (Snapshot(), call) == Visit(old(Snapshot()), url, depth, fetcher)
    {
      if depth <= 0 {
        return Call(url, depth, [], 0);
      }
      if url in fetched {
        return Call(url, depth, [], 0);
      }
      ghost var s0 := Snapshot();
      fetched := fetched[url := Loading];
      var reply := fetcher(url);
      log := log + [url];
      fetched := fetched[url := Resolve(reply.err)];
      assert fetched == s0.fetched[url := Resolve(reply.err)];
      if reply.err.Some? {
        return Call(url, depth, [], 0);
      }
      ghost var s1 := Snapshot();
      ghost var kids: seq<Call> := [];
      // completion signals sent on `done` and not yet received
      ghost var pending: nat := 0;
      var i := 0;
      while i < |reply.urls|
        invariant 0 <= i <= |reply.urls|
        invariant (Snapshot(), kids) == VisitAll(s1, reply.urls[..i], depth - 1, fetcher)
        invariant pending == i
      {
        assert reply.urls[..i + 1][..i] == reply.urls[..i];
        var child := Crawl(reply.urls[i], depth - 1, fetcher);
        kids := kids + [child];
        pending := pending + 1;
        i := i + 1;
      }
      assert reply.urls[..i] == reply.urls;
      var received := 0;
      while received < |reply.urls|
        invariant 0 <= received <= |reply.urls|
        invariant pending == |reply.urls| - received
      {
        pending := pending - 1;
        received := received + 1;
      }
      call := Call(url, depth, kids, received);
    }
  }
}
