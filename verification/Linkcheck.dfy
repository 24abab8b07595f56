/**
 * The crawler of misc/linkcheck/linkcheck.go: crawl, crawlLoop, doCrawl and main
 * as one state machine over every schedule. Fetching is a fixed function from a
 * URL to the server's response.
 *
 * crawl holds mu throughout, and the only other reader of the wait group is
 * main's Wait, which comes after main's own crawl and is held up by the page
 * that crawlLoop is working on during any other; so a call of crawl is one step.
 */
module Linkcheck {
  import opened Wrappers

  type Url = string

  datatype Response = Failure | Redirect(to: Url) | Page(refs: seq<string>)

  datatype Site = Site(root: Url, fetch: Url -> Response)

  datatype Loop = Idle | Crawling(url: Url, todo: seq<Url>) | Exited

  datatype Main = Start | Waiting | Closing | Closed

  /** senders are the goroutines started by crawl; fetched is history. */
  datatype State = State(
    crawled: set<Url>, wg: nat, senders: set<Url>, loop: Loop, main: Main, fetched: seq<Url>)

  datatype Action = MainStep | Send(url: Url) | LoopStep

  const START := State({}, 0, {}, Idle, Start, [])

  const SKIP := "/devel/release"

  predicate Contains(s: string, t: string) { exists i {:trigger s[i..]} :: 0 <= i <= |s| && t <= s[i..] }

  /** The URL up to its first '#'. */
  function StripFragment(s: string): string
  {
    if s == [] || s[0] == '#' then [] else [s[0]] + StripFragment(s[1..])
  }

  /** The page that a reference asks for, if crawl does not ignore it. */
  function Target(ref: Url): Option<Url>
  {
    if Contains(ref, SKIP) then None else Some(StripFragment(ref))
  }

  /** What doCrawl hands to crawl, in order. */
  function Links(site: Site, url: Url): seq<Url>
  {
    match site.fetch(url)
    case Failure => []
    case Redirect(to) => if site.root <= to then [to] else []
    case Page(refs) => seq(|refs|, i requires 0 <= i < |refs| => site.root + refs[i])
  }

  function Crawl(s: State, ref: Url): State
  {
    var target := Target(ref);
    if target.None? || target.value in s.crawled then s
    else s.(crawled := s.crawled + {target.value}, wg := s.wg + 1, senders := s.senders + {target.value})
  }

  predicate Enabled(s: State, a: Action)
  {
    match a
    case MainStep => s.main.Start? || (s.main.Waiting? && s.wg == 0) || s.main.Closing?
    case Send(url) => url in s.senders && s.loop.Idle? && !s.main.Closed?
    case LoopStep => (s.loop.Crawling? && (s.loop.todo == [] ==> s.wg > 0)) || (s.loop.Idle? && s.main.Closed?)
  }

  function Apply(site: Site, s: State, a: Action): State
    requires Enabled(s, a)
  {
    match a
    case MainStep =>
      if s.main.Start? then Crawl(s, site.root).(main := Waiting)
      else if s.main.Waiting? then s.(main := Closing)
      else s.(main := Closed)
    case Send(url) =>
      s.(senders := s.senders - {url}, loop := Crawling(url, Links(site, url)), fetched := s.fetched + [url])
    case LoopStep =>
      if s.loop.Idle? then s.(loop := Exited)
      else if s.loop.todo == [] then s.(loop := Idle, wg := s.wg - 1)
      else Crawl(s, s.loop.todo[0]).(loop := Crawling(s.loop.url, s.loop.todo[1..]))
  }

  function Exec(site: Site, run: seq<Action>): Option<State>
  {
    if run == [] then Some(START)
    else
      var before := Exec(site, run[..|run| - 1]);
      var a := run[|run| - 1];
      if before.Some? && Enabled(before.value, a) then Some(Apply(site, before.value, a)) else None
  }

  // ---------- reachability, independently of any crawl ----------

  /** The page at url links to target. */
  ghost predicate LinksTo(site: Site, url: Url, target: Url)
  {
    exists ref :: ref in Links(site, url) && Target(ref) == Some(target)
  }

  /** path leads from the root, link by link, to its last page. */
  ghost predicate IsPath(site: Site, path: seq<Url>)
  {
    path != [] && Target(site.root) == Some(path[0]) &&
    forall i :: 0 <= i < |path| - 1 ==> LinksTo(site, path[i], path[i + 1])
  }

  ghost predicate Reachable(site: Site, url: Url)
  {
    exists path :: IsPath(site, path) && path[|path| - 1] == url
  }

  lemma ReachableStep(site: Site, url: Url, target: Url)
    requires Reachable(site, url) && LinksTo(site, url, target)
    ensures Reachable(site, target)
  {
    var path :| IsPath(site, path) && path[|path| - 1] == url;
    var longer := path + [target];
    forall i | 0 <= i < |longer| - 1 ensures LinksTo(site, longer[i], longer[i + 1]) {
      if i < |path| - 1 {
        assert longer[i] == path[i] && longer[i + 1] == path[i + 1];
      } else {
        assert longer[i] == url && longer[i + 1] == target;
      }
    }
    assert longer[0] == path[0] && longer[|longer| - 1] == target;
  }

  lemma ReachableRoot(site: Site)
    requires Target(site.root).Some?
    ensures Reachable(site, Target(site.root).value)
  {
    assert IsPath(site, [Target(site.root).value]);
  }

  // ---------- the invariant ----------

  /** The page crawlLoop is working on. */
  function Current(s: State): set<Url> { if s.loop.Crawling? then {s.loop.url} else {} }

  /** Every link of url leads to a page that has been noted. */
  ghost predicate Followed(site: Site, s: State, url: Url)
  {
    forall ref :: ref in Links(site, url) && Target(ref).Some? ==> Target(ref).value in s.crawled
  }

  ghost predicate CountInv(s: State)
  {
    s.wg == |s.senders + Current(s)| && s.senders !! Current(s)
  }

  ghost predicate FetchInv(s: State)
  {
    NoRepeats(s.fetched) &&
    (forall url :: url in s.crawled <==> url in s.senders || url in s.fetched) &&
    (forall url :: url in s.senders ==> url !in s.fetched) &&
    (s.loop.Crawling? ==> s.loop.url in s.fetched)
  }

  ghost predicate LinkInv(site: Site, s: State)
  {
    (s.main.Start? ==> s.crawled == {}) &&
    (!s.main.Start? && Target(site.root).Some? ==> Target(site.root).value in s.crawled) &&
    (forall url :: url in s.crawled ==> Reachable(site, url)) &&
    (forall url :: url in s.fetched && url !in Current(s) ==> Followed(site, s, url)) &&
    (s.loop.Crawling? ==>
      (forall ref :: ref in s.loop.todo ==> ref in Links(site, s.loop.url)) &&
      (forall ref :: ref in Links(site, s.loop.url) && Target(ref).Some? ==>
        ref in s.loop.todo || Target(ref).value in s.crawled))
  }

  ghost predicate Inv(site: Site, s: State)
  {
    CountInv(s) && FetchInv(s) && LinkInv(site, s) &&
    (s.main.Closing? || s.main.Closed? ==> s.wg == 0) && (s.loop.Exited? ==> s.main.Closed?)
  }

  lemma SameSize(a: set<Url>, b: set<Url>, x: Url)
    requires x !in a && b == a + {x}
    ensures |b| == |a| + 1
  {
  }

  lemma CrawlKeepsCount(s: State, ref: Url)
    requires CountInv(s) && FetchInv(s)
    ensures CountInv(Crawl(s, ref)) && FetchInv(Crawl(s, ref))
  {
    var s' := Crawl(s, ref);
    if s' != s {
      SameSize(s.senders + Current(s), s'.senders + Current(s'), Target(ref).value);
    }
  }

  lemma CrawlKeepsFollowed(site: Site, s: State, ref: Url)
    ensures forall url :: Followed(site, s, url) ==> Followed(site, Crawl(s, ref), url)
    ensures s.crawled <= Crawl(s, ref).crawled
    ensures Target(ref).Some? ==> Target(ref).value in Crawl(s, ref).crawled
  {
  }

  lemma MainKeepsInv(site: Site, s: State)
    requires Inv(site, s) && Enabled(s, MainStep)
    ensures Inv(site, Apply(site, s, MainStep))
  {
    if s.main.Start? {
      CrawlKeepsCount(s, site.root);
      CrawlKeepsFollowed(site, s, site.root);
      if Target(site.root).Some? { ReachableRoot(site); }
    }
  }

  lemma SendKeepsInv(site: Site, s: State, url: Url)
    requires Inv(site, s) && Enabled(s, Send(url))
    ensures Inv(site, Apply(site, s, Send(url)))
  {
    var s' := Apply(site, s, Send(url));
    assert s'.senders + Current(s') == s.senders + Current(s);
    forall u | u in s'.fetched && u !in Current(s') ensures Followed(site, s', u) {
      assert u in s.fetched;
    }
  }

  lemma FollowKeepsInv(site: Site, s: State)
    requires Inv(site, s) && Enabled(s, LoopStep) && s.loop.Crawling? && s.loop.todo != []
    ensures Inv(site, Apply(site, s, LoopStep))
  {
    var s' := Apply(site, s, LoopStep);
    var url, ref := s.loop.url, s.loop.todo[0];
    CrawlKeepsCount(s, ref);
    CrawlKeepsFollowed(site, s, ref);
    assert ref in s.loop.todo;
    if Target(ref).Some? {
      assert LinksTo(site, url, Target(ref).value);
      ReachableStep(site, url, Target(ref).value);
    }
    forall r | r in Links(site, url) && Target(r).Some? ensures r in s'.loop.todo || Target(r).value in s'.crawled {
      if r in s.loop.todo && r !in s'.loop.todo { assert r == ref; }
    }
  }

  lemma DoneKeepsInv(site: Site, s: State)
    requires Inv(site, s) && Enabled(s, LoopStep) && s.loop.Crawling? && s.loop.todo == []
    ensures Inv(site, Apply(site, s, LoopStep))
  {
    var s' := Apply(site, s, LoopStep);
    SameSize(s'.senders + Current(s'), s.senders + Current(s), s.loop.url);
    assert Followed(site, s', s.loop.url);
    forall u | u in s'.fetched ensures Followed(site, s', u) {
      if u != s.loop.url { assert Followed(site, s, u); }
    }
  }

  lemma StepKeepsInv(site: Site, s: State, a: Action)
    requires Inv(site, s) && Enabled(s, a)
    ensures Inv(site, Apply(site, s, a))
  {
    match a
    case MainStep => MainKeepsInv(site, s);
    case Send(url) => SendKeepsInv(site, s, url);
    case LoopStep =>
      if s.loop.Crawling? {
        if s.loop.todo == [] { DoneKeepsInv(site, s); } else { FollowKeepsInv(site, s); }
      }
  }

  lemma {:induction false} ReachableInv(site: Site, run: seq<Action>)
    requires Exec(site, run).Some?
    ensures Inv(site, Exec(site, run).value)
  {
    if run != [] {
      ReachableInv(site, run[..|run| - 1]);
      StepKeepsInv(site, Exec(site, run[..|run| - 1]).value, run[|run| - 1]);
    }
  }

  // ---------- the guarantees ----------

  /** In every schedule the wait group counts the pages that are noted and not finished. */
  lemma WaitGroupIsExact(site: Site, run: seq<Action>)
    requires Exec(site, run).Some?
    ensures var s := Exec(site, run).value;
            s.wg == |set url | url in s.crawled && (url !in s.fetched || (s.loop.Crawling? && url == s.loop.url))|
  {
    ReachableInv(site, run);
    var s := Exec(site, run).value;
    assert s.senders + Current(s) ==
           set url | url in s.crawled && (url !in s.fetched || (s.loop.Crawling? && url == s.loop.url));
  }

  lemma {:induction false} PathCrawled(site: Site, s: State, path: seq<Url>, k: nat)
    requires Inv(site, s) && s.senders == {} && Current(s) == {} && !s.main.Start?
    requires IsPath(site, path) && k < |path|
    ensures path[k] in s.crawled
  {
    if k != 0 {
      PathCrawled(site, s, path, k - 1);
      assert LinksTo(site, path[k - 1], path[k]);
      assert Followed(site, s, path[k - 1]);
    }
  }

  /**
   * Once wg.Wait has returned, the crawled pages are exactly those reachable from
   * the root, each fetched once, and nobody is left to send on urlq, so closing
   * it is safe.
   */
  lemma WaitMeansComplete(site: Site, run: seq<Action>)
    requires Exec(site, run).Some?
    requires var s := Exec(site, run).value; s.main.Closing? || s.main.Closed?
    ensures var s := Exec(site, run).value;
            (forall url :: url in s.crawled <==> Reachable(site, url)) &&
            (forall url :: url in s.fetched <==> url in s.crawled) && NoRepeats(s.fetched) &&
            s.senders == {} && !s.loop.Crawling?
  {
    ReachableInv(site, run);
    var s := Exec(site, run).value;
    assert s.senders + Current(s) == {};
    assert s.senders == {} && Current(s) == {};
    forall url | Reachable(site, url) ensures url in s.crawled {
      var path :| IsPath(site, path) && path[|path| - 1] == url;
      PathCrawled(site, s, path, |path| - 1);
    }
  }

  predicate Finished(s: State) { s.main.Closed? && s.loop.Exited? }

  /** Until main and crawlLoop have both ended, some goroutine can move. */
  lemma NoDeadlock(site: Site, run: seq<Action>)
    requires Exec(site, run).Some?
    ensures var s := Exec(site, run).value; (exists a :: Enabled(s, a)) <==> !Finished(s)
  {
    ReachableInv(site, run);
    var s := Exec(site, run).value;
    if !Finished(s) {
      if s.loop.Crawling? {
        assert s.loop.url in s.senders + Current(s);
        assert Enabled(s, LoopStep);
      } else if s.main.Waiting? && s.wg > 0 {
        assert s.senders + Current(s) != {};
        var url :| url in s.senders;
        assert Enabled(s, Send(url));
      } else if s.main.Closed? {
        assert Enabled(s, LoopStep);
      } else {
        assert Enabled(s, MainStep);
      }
    }
  }

  /** A finite set of pages that no link leads out of. */
  ghost predicate Universe(site: Site, pages: set<Url>, width: nat)
  {
    (Target(site.root).Some? ==> Target(site.root).value in pages) &&
    forall url :: url in pages ==> |Links(site, url)| <= width && forall target :: LinksTo(site, url, target) ==> target in pages
  }

  lemma {:induction false} PathInside(site: Site, pages: set<Url>, width: nat, path: seq<Url>, k: nat)
    requires Universe(site, pages, width) && IsPath(site, path) && k < |path|
    ensures path[k] in pages
  {
    if k != 0 {
      PathInside(site, pages, width, path, k - 1);
      assert LinksTo(site, path[k - 1], path[k]);
    }
  }

  lemma ReachableInside(site: Site, pages: set<Url>, width: nat, url: Url)
    requires Universe(site, pages, width) && Reachable(site, url)
    ensures url in pages
  {
    var path :| IsPath(site, path) && path[|path| - 1] == url;
    PathInside(site, pages, width, path, |path| - 1);
  }

  lemma {:induction false} FewDistinct(xs: seq<Url>, pages: set<Url>)
    requires NoRepeats(xs) && forall x :: x in xs ==> x in pages
    ensures |xs| <= |pages|
  {
    if xs != [] {
      var last := xs[|xs| - 1];
      FewDistinct(xs[..|xs| - 1], pages - {last});
    }
  }

  /** The most steps that n pages can cost: one to send, one for each link, one to finish. */
  function Cost(n: nat, width: nat): nat { if n == 0 then 0 else Cost(n - 1, width) + width + 2 }

  lemma {:induction false} CostGrows(m: nat, n: nat, width: nat)
    requires m <= n
    ensures Cost(m, width) <= Cost(n, width)
    decreases n
  {
    if m < n { CostGrows(m, n - 1, width); }
  }

  /** Steps taken so far are paid for by the pages fetched so far. */
  function Spent(s: State, width: nat): int
  {
    (if s.main.Start? then 0 else if s.main.Waiting? then 1 else if s.main.Closing? then 2 else 3) +
    (if s.loop.Exited? then 1 else if s.loop.Crawling? then -1 - |s.loop.todo| else 0) +
    Cost(|s.fetched|, width)
  }

  lemma StepIsPaid(site: Site, s: State, a: Action, width: nat)
    requires Enabled(s, a) && (s.loop.Exited? ==> s.main.Closed?)
    requires a.Send? ==> |Links(site, a.url)| <= width
    ensures Spent(s, width) + 1 <= Spent(Apply(site, s, a), width)
  {
  }

  lemma {:induction false} StepsArePaid(site: Site, run: seq<Action>, pages: set<Url>, width: nat)
    requires Exec(site, run).Some? && Universe(site, pages, width)
    ensures |run| <= Spent(Exec(site, run).value, width)
  {
    if run != [] {
      var before, a := run[..|run| - 1], run[|run| - 1];
      var s := Exec(site, before).value;
      StepsArePaid(site, before, pages, width);
      if a.Send? {
        ReachableInv(site, before);
        ReachableInside(site, pages, width, a.url);
      } else if s.loop.Exited? {
        ReachableInv(site, before);
      }
      StepIsPaid(site, s, a, width);
    }
  }

  /**
   * On a site with finitely many pages every schedule comes to an end, and the
   * one way to end is with every reachable page fetched once.
   */
  lemma CrawlTerminates(site: Site, run: seq<Action>, pages: set<Url>, width: nat)
    requires Exec(site, run).Some? && Universe(site, pages, width)
    ensures |run| <= 4 + Cost(|pages|, width)
    ensures var s := Exec(site, run).value;
            (forall a :: !Enabled(s, a)) ==>
              Finished(s) && NoRepeats(s.fetched) && forall url :: url in s.fetched <==> Reachable(site, url)
  {
    ReachableInv(site, run);
    NoDeadlock(site, run);
    StepsArePaid(site, run, pages, width);
    var s := Exec(site, run).value;
    forall x | x in s.fetched ensures x in pages { ReachableInside(site, pages, width, x); }
    FewDistinct(s.fetched, pages);
    CostGrows(|s.fetched|, |pages|, width);
    if Finished(s) { WaitMeansComplete(site, run); }
  }
}
