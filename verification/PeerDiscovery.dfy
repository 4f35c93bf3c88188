/** The peer crawl: refreshPool is a worklist search over urls identified by their
    normal form, with a cap on the pool and on the number of nodes crawled. */
module PeerDiscovery {
  import opened Text
  import opened Wrappers

  const MAX_POOL_SIZE: nat := 21
  const MAX_CRAWLED: nat := 50

  function NormalizeURL(url: string): string {
    ToLower(TrimSuffix(TrimSpace(url), '/'))
  }

  /** A url is taken without white space around it, without one final slash, and without regard to letter
      case. */
  lemma {:induction false} NormalizeURLOf(before: string, url: string, after: string)
    requires IsBlank(before) && IsBlank(after)
    requires url != "" ==> !IsBlank([url[0]]) && !IsBlank([url[|url| - 1]])
    ensures var n := NormalizeURL(before + url + after);
            && !HasUpper(n)
            && (if url != "" && url[|url| - 1] == '/' then SameButCase(n, url[..|url| - 1]) else SameButCase(n, url))
  {
    TrimSpaceOf(before, url, after);
    LowerMeaning(TrimSuffix(url, '/'));
    if url != "" && url[|url| - 1] == '/' {
      TrimSuffixOf(url[..|url| - 1], '/');
      assert url == url[..|url| - 1] + "/";
    } else {
      TrimSuffixOf(url, '/');
    }
  }

  /** So urls name one node exactly when nothing but that distinguishes them. */
  lemma {:induction false} SameNodeIff(u: string, v: string)
    ensures NormalizeURL(u) == NormalizeURL(v) <==>
            SameButCase(TrimSuffix(TrimSpace(u), '/'), TrimSuffix(TrimSpace(v), '/'))
  {
    SameLowerIff(TrimSuffix(TrimSpace(u), '/'), TrimSuffix(TrimSpace(v), '/'));
  }

  /** Normalising is not idempotent in general: it strips one slash, and what is left may end in
      a slash or a space again. It is idempotent exactly on the urls where that does not happen. */
  lemma NormalizeTwiceIff(url: string)
    ensures NormalizeURL(NormalizeURL(url)) == NormalizeURL(url) <==>
            var t := TrimSpace(url);
            !(|t| >= 2 && EndsWith(t, '/') && (t[|t| - 2] == '/' || IsSpace(t[|t| - 2])))
  {
    var t := TrimSpace(url);
    TrimSpaceTrims(url);
    var u := TrimSuffix(t, '/');
    LowerTwice(u);
    var n := ToLower(u);
    TrimSpaceTrims(n);
    TrimLeftStripsFront(n);
    TrimRightKeepsFirst(TrimLeft(n));
    assert u != [] ==> u[0] == t[0];
    assert TrimLeft(n) == n;
    if n != [] && IsSpace(n[|n| - 1]) {
      assert |TrimSpace(n)| < |n|;
    }
  }

  lemma NormalizeIsNotIdempotent()
    ensures NormalizeURL("a//") == "a/" && NormalizeURL("a/") == "a"
  {
    assert ToLower("a/") == "a/";
    assert ToLower("a") == "a";
    TrimSpaceTrims("a//");
    TrimSpaceTrims("a/");
  }

  function Keys(urls: seq<string>): set<string> {
    set u | u in urls :: NormalizeURL(u)
  }

  /** The reference definition of the order of a crawl: the first url of each normal form that is
      not known yet, in order of appearance. */
  function FirstOfEach(known: set<string>, urls: seq<string>): seq<string>
    decreases |urls|
  {
    if urls == [] then []
    else if NormalizeURL(urls[0]) in known then FirstOfEach(known, urls[1..])
    else [urls[0]] + FirstOfEach(known + {NormalizeURL(urls[0])}, urls[1..])
  }

  function Unseen(seen: set<string>, urls: seq<string>): seq<string> {
    if urls == [] then []
    else
      var front := Unseen(seen, urls[..|urls| - 1]);
      if NormalizeURL(urls[|urls| - 1]) in seen then front else front + [urls[|urls| - 1]]
  }

  /** What is kept is exactly what has no normal form seen. */
  lemma {:induction false} UnseenMeaning(seen: set<string>, urls: seq<string>, u: string)
    ensures u in Unseen(seen, urls) <==> u in urls && NormalizeURL(u) !in seen
  {
    if urls != [] {
      UnseenMeaning(seen, urls[..|urls| - 1], u);
      assert urls == urls[..|urls| - 1] + [urls[|urls| - 1]];
    }
  }

  // ------------------------------------------------------------ calls to the network

  // One GET request: its url, whether it was answered with OK, and the peers read from the answer.
  datatype Request = Request(url: string, ok: bool, peers: seq<string>)

  function Endpoint(node: string, path: string): string {
    TrimSuffix(node, '/') + path
  }

  /** The path follows the url of the node, with one slash between them. */
  lemma {:induction false} EndpointOf(node: string, path: string)
    requires node == "" || node[|node| - 1] != '/'
    ensures Endpoint(node, "/" + path) == Endpoint(node + "/", "/" + path) == node + "/" + path
  {
    TrimSuffixOf(node, '/');
    assert node + ("/" + path) == node + "/" + path;
  }

  // A health check asks the health endpoint, and makes a test query only if that is not OK.
  predicate HealthRequests(node: string, requests: seq<Request>, healthy: bool) {
    && 1 <= |requests| <= 2
    && requests[0].url == Endpoint(node, "/dnn/health")
    && (|requests| == 2 <==> !requests[0].ok)
    && (|requests| == 2 ==> requests[1].url == Endpoint(node, "/dnn/resolve/nabtaabove"))
    && healthy == requests[|requests| - 1].ok
  }

  // A crawl asks both peer endpoints and takes the answers one after the other.
  predicate CrawlRequests(node: string, requests: seq<Request>, peers: seq<string>) {
    && |requests| == 2
    && requests[0].url == Endpoint(node, "/dnn/peers")
    && requests[1].url == Endpoint(node, "/dnn/discovered-peers")
    && peers == requests[0].peers + requests[1].peers
  }

  datatype Check = Check(url: string, healthy: bool)
  datatype Reply = Reply(url: string, peers: seq<string>)

  /** The requests sent are those of the health checks, one after the other, each followed by those of
      the crawl if it found its node healthy; and the verdicts and the peers are what they answered. */
  ghost predicate Sent(requests: seq<Request>, checks: seq<Check>, crawls: seq<Reply>)
    decreases |checks|, 1
  {
    if checks == [] then requests == [] && crawls == []
    else exists a: nat, b: nat :: EndsWithCheck(requests, checks, crawls, a, b)
  }

  // The last check asked from the a-th request on, its crawl from the b-th.
  ghost predicate EndsWithCheck(requests: seq<Request>, checks: seq<Check>, crawls: seq<Reply>, a: nat, b: nat)
    requires checks != []
    decreases |checks|, 0
  {
    var front, last := checks[..|checks| - 1], checks[|checks| - 1];
    && a <= b <= |requests|
    && HealthRequests(last.url, requests[a..b], last.healthy)
    && (if last.healthy
        then && crawls != [] && crawls[|crawls| - 1].url == last.url
             && CrawlRequests(last.url, requests[b..], crawls[|crawls| - 1].peers)
             && Sent(requests[..a], front, crawls[..|crawls| - 1])
        else b == |requests| && Sent(requests[..a], front, crawls))
  }

  lemma {:induction false} SentUnhealthy(requests: seq<Request>, checks: seq<Check>, crawls: seq<Reply>, url: string,
                                         health: seq<Request>)
    requires Sent(requests, checks, crawls) && HealthRequests(url, health, false)
    ensures Sent(requests + health, checks + [Check(url, false)], crawls)
  {
    var all, checks' := requests + health, checks + [Check(url, false)];
    assert all[|requests|..|all|] == health && all[..|requests|] == requests && checks'[..|checks|] == checks;
    assert EndsWithCheck(all, checks', crawls, |requests|, |all|);
  }

  // The same, but for the crawl of the node checked last.
  ghost predicate Uncrawled(requests: seq<Request>, checks: seq<Check>, crawls: seq<Reply>, a: nat) {
    && checks != [] && checks[|checks| - 1].healthy && a <= |requests|
    && HealthRequests(checks[|checks| - 1].url, requests[a..], true)
    && Sent(requests[..a], checks[..|checks| - 1], crawls)
  }

  ghost predicate SentButCrawl(requests: seq<Request>, checks: seq<Check>, crawls: seq<Reply>) {
    exists a: nat :: Uncrawled(requests, checks, crawls, a)
  }

  lemma {:induction false} SentHealthy(requests: seq<Request>, checks: seq<Check>, crawls: seq<Reply>, url: string,
                                       health: seq<Request>)
    requires Sent(requests, checks, crawls) && HealthRequests(url, health, true)
    ensures SentButCrawl(requests + health, checks + [Check(url, true)], crawls)
  {
    var all, checks' := requests + health, checks + [Check(url, true)];
    assert all[|requests|..] == health && all[..|requests|] == requests && checks'[..|checks|] == checks;
    assert Uncrawled(all, checks', crawls, |requests|);
  }

  lemma {:induction false} SentCrawl(requests: seq<Request>, checks: seq<Check>, crawls: seq<Reply>, url: string,
                                     crawl: seq<Request>, peers: seq<string>)
    requires SentButCrawl(requests, checks, crawls) && checks[|checks| - 1].url == url
    requires CrawlRequests(url, crawl, peers)
    ensures Sent(requests + crawl, checks, crawls + [Reply(url, peers)])
  {
    var a: nat :| Uncrawled(requests, checks, crawls, a);
    var all, crawls' := requests + crawl, crawls + [Reply(url, peers)];
    assert all[a..|requests|] == requests[a..] && all[|requests|..] == crawl && all[..a] == requests[..a];
    assert crawls'[..|crawls|] == crawls;
    assert EndsWithCheck(all, checks, crawls', a, |requests|);
  }

  /** So there are one or two requests for each check, and two for each crawl. */
  lemma {:induction false} SentCounts(requests: seq<Request>, checks: seq<Check>, crawls: seq<Reply>)
    requires Sent(requests, checks, crawls)
    ensures |checks| + 2 * |crawls| <= |requests| <= 2 * |checks| + 2 * |crawls|
    decreases |checks|
  {
    if checks != [] {
      var a: nat, b: nat :| EndsWithCheck(requests, checks, crawls, a, b);
      SentCounts(requests[..a], checks[..|checks| - 1],
                 if checks[|checks| - 1].healthy then crawls[..|crawls| - 1] else crawls);
    }
  }

  function CheckedURLs(checks: seq<Check>): seq<string> {
    seq(|checks|, i requires 0 <= i < |checks| => checks[i].url)
  }

  function CrawledURLs(crawls: seq<Reply>): seq<string> {
    seq(|crawls|, i requires 0 <= i < |crawls| => crawls[i].url)
  }

  function HealthyURLs(checks: seq<Check>): seq<string> {
    if checks == [] then []
    else
      var last := checks[|checks| - 1];
      HealthyURLs(checks[..|checks| - 1]) + if last.healthy then [last.url] else []
  }

  // Everything the crawled nodes answered, in order.
  function Peers(crawls: seq<Reply>): seq<string> {
    if crawls == [] then [] else Peers(crawls[..|crawls| - 1]) + crawls[|crawls| - 1].peers
  }

  predicate IsSeed(seeds: seq<string>, node: string) {
    exists i :: 0 <= i < |seeds| && NormalizeURL(seeds[i]) == NormalizeURL(node)
  }

  // The healthy urls that are no seeds, in the order they were checked.
  function Discovered(seeds: seq<string>, checks: seq<Check>): seq<string> {
    if checks == [] then []
    else
      var last := checks[|checks| - 1];
      Discovered(seeds, checks[..|checks| - 1]) + if last.healthy && !IsSeed(seeds, last.url) then [last.url] else []
  }

  /** The i-th health check is of the i-th first-of-its-kind url among the start urls and all peers
      answered before that check: breadth-first order, and no url is checked out of thin air. */
  ghost predicate BreadthFirst(start: seq<string>, checks: seq<Check>, crawls: seq<Reply>) {
    forall i :: 0 <= i < |checks| ==> ChecksNext(start, checks, crawls, i)
  }

  ghost predicate ChecksNext(start: seq<string>, checks: seq<Check>, crawls: seq<Reply>, i: nat)
    requires i < |checks|
  {
    var before := |HealthyURLs(checks[..i])|;
    && before <= |crawls|
    && var offered := FirstOfEach({}, start + Peers(crawls[..before]));
       i < |offered| && offered[i] == checks[i].url
  }

  // ------------------------------------------------------------ facts about the reference order

  lemma {:induction false} FirstOfEachAppend(known: set<string>, a: seq<string>, b: seq<string>)
    ensures FirstOfEach(known, a + b) == FirstOfEach(known, a) + FirstOfEach(known + Keys(a), b)
    decreases |a|
  {
    if a == [] {
      assert a + b == b;
      assert known + Keys(a) == known;
    } else {
      var k := NormalizeURL(a[0]);
      assert a == [a[0]] + a[1..];
      assert (a + b)[1..] == a[1..] + b;
      assert Keys(a) == {k} + Keys(a[1..]);
      if k in known {
        FirstOfEachAppend(known, a[1..], b);
        assert known + Keys(a[1..]) == known + Keys(a);
      } else {
        FirstOfEachAppend(known + {k}, a[1..], b);
        assert known + {k} + Keys(a[1..]) == known + Keys(a);
      }
    }
  }

  lemma {:induction false} UnseenAddsNothingKnown(seen: set<string>, known: set<string>, urls: seq<string>)
    requires seen <= known
    ensures FirstOfEach(known, Unseen(seen, urls)) == FirstOfEach(known, urls)
    ensures seen + Keys(Unseen(seen, urls)) == seen + Keys(urls)
  {
    if urls != [] {
      var front, last := urls[..|urls| - 1], urls[|urls| - 1];
      assert urls == front + [last];
      assert Keys(urls) == Keys(front) + {NormalizeURL(last)};
      UnseenAddsNothingKnown(seen, known, front);
      FirstOfEachAppend(known, front, [last]);
      if NormalizeURL(last) !in seen {
        var kept := Unseen(seen, front);
        FirstOfEachAppend(known, kept, [last]);
        assert Keys(kept + [last]) == Keys(kept) + {NormalizeURL(last)};
        assert known + Keys(kept) == known + Keys(front);
      }
    }
  }

  lemma {:induction false} FirstOfEachKeys(known: set<string>, urls: seq<string>)
    ensures Keys(FirstOfEach(known, urls)) == Keys(urls) - known
    ensures KeysDiffer(FirstOfEach(known, urls))
    decreases |urls|
  {
    if urls != [] {
      var k := NormalizeURL(urls[0]);
      DropHead(urls);
      if k in known {
        FirstOfEachKeys(known, urls[1..]);
      } else {
        var rest := FirstOfEach(known + {k}, urls[1..]);
        FirstOfEachKeys(known + {k}, urls[1..]);
        DropHead([urls[0]] + rest);
        assert ([urls[0]] + rest)[1..] == rest;
        forall i | 0 <= i < |rest| ensures NormalizeURL(rest[i]) != k {
          assert NormalizeURL(rest[i]) in Keys(rest);
        }
      }
    }
  }

  lemma {:induction false} FirstOfEachIsFirst(known: set<string>, urls: seq<string>, i: nat)
    requires i < |FirstOfEach(known, urls)|
    ensures IsFirst(urls, FirstOfEach(known, urls)[i])
    decreases |urls|
  {
    var k := NormalizeURL(urls[0]);
    var u := FirstOfEach(known, urls)[i];
    if k !in known && i == 0 {
      assert urls[0] == u;
    } else {
      if k in known {
        FirstOfEachIsFirst(known, urls[1..], i);
        FirstOfEachKeys(known, urls);
        assert NormalizeURL(u) in Keys(FirstOfEach(known, urls));
      } else {
        FirstOfEachIsFirst(known + {k}, urls[1..], i - 1);
        FirstOfEachKeys(known, urls);
        assert FirstOfEach(known, urls)[0] == urls[0];
      }
      IsFirstInTail(urls, u);
    }
  }

  lemma IsFirstInTail(urls: seq<string>, u: string)
    requires urls != [] && NormalizeURL(urls[0]) != NormalizeURL(u) && IsFirst(urls[1..], u)
    ensures IsFirst(urls, u)
  {
    var j :| 0 <= j < |urls| - 1 && urls[1..][j] == u
             && forall m :: 0 <= m < j ==> NormalizeURL(urls[1..][m]) != NormalizeURL(u);
    forall m | 0 <= m < j + 1 ensures NormalizeURL(urls[m]) != NormalizeURL(u) {
      if m > 0 {
        assert urls[m] == urls[1..][m - 1];
      }
    }
    assert urls[j + 1] == u;
  }

  /** What the reference order means: pairwise different normal forms, exactly those that are not
      known already, and each represented by its first url. */
  lemma {:induction false} FirstOfEachMeaning(known: set<string>, urls: seq<string>)
    ensures var r := FirstOfEach(known, urls);
            && KeysDiffer(r)
            && Keys(r) == Keys(urls) - known
            && forall i :: 0 <= i < |r| ==> IsFirst(urls, r[i])
  {
    FirstOfEachKeys(known, urls);
    forall i | 0 <= i < |FirstOfEach(known, urls)| ensures IsFirst(urls, FirstOfEach(known, urls)[i]) {
      FirstOfEachIsFirst(known, urls, i);
    }
  }

  predicate KeysDiffer(urls: seq<string>) {
    forall i, j :: 0 <= i < j < |urls| ==> NormalizeURL(urls[i]) != NormalizeURL(urls[j])
  }

  ghost predicate IsFirst(urls: seq<string>, u: string) {
    exists j :: 0 <= j < |urls| && urls[j] == u && forall m :: 0 <= m < j ==> NormalizeURL(urls[m]) != NormalizeURL(u)
  }

  lemma DropHead(urls: seq<string>)
    requires urls != []
    ensures Keys(urls) == {NormalizeURL(urls[0])} + Keys(urls[1..])
  {
    assert urls == [urls[0]] + urls[1..];
  }

  lemma KeysOfConcat(a: seq<string>, b: seq<string>)
    ensures Keys(a + b) == Keys(a) + Keys(b)
  {
    forall u | u in a + b ensures NormalizeURL(u) in Keys(a) + Keys(b) {}
    forall u | u in a || u in b ensures NormalizeURL(u) in Keys(a + b) {
      assert u in a + b;
    }
  }

  // ------------------------------------------------------------ what the loop keeps

  /** The worklist refines the reference: what has been checked, followed by what the queue still
      holds, is the reference order of everything offered so far. */
  ghost predicate Progress(start: seq<string>, checks: seq<Check>, crawls: seq<Reply>, seen: set<string>,
                           queue: seq<string>)
  {
    && seen == Keys(CheckedURLs(checks))
    && FirstOfEach({}, start + Peers(crawls)) == CheckedURLs(checks) + FirstOfEach(seen, queue)
    && Keys(start + Peers(crawls)) == seen + Keys(queue)
  }

  lemma SkipKeepsProgress(start: seq<string>, checks: seq<Check>, crawls: seq<Reply>, seen: set<string>,
                          queue: seq<string>)
    requires Progress(start, checks, crawls, seen, queue)
    requires queue != [] && NormalizeURL(queue[0]) in seen
    ensures Progress(start, checks, crawls, seen, queue[1..])
  {
    DropHead(queue);
  }

  lemma CheckKeepsProgress(start: seq<string>, checks: seq<Check>, crawls: seq<Reply>, seen: set<string>,
                           queue: seq<string>, healthy: bool)
    requires Progress(start, checks, crawls, seen, queue)
    requires queue != [] && NormalizeURL(queue[0]) !in seen
    ensures Progress(start, checks + [Check(queue[0], healthy)], crawls, seen + {NormalizeURL(queue[0])}, queue[1..])
  {
    var node := queue[0];
    var checks' := checks + [Check(node, healthy)];
    var seen' := seen + {NormalizeURL(node)};
    CheckedURLsAppend(checks, Check(node, healthy));
    assert Keys(start + Peers(crawls)) == seen' + Keys(queue[1..]) by {
      DropHead(queue);
    }
    assert FirstOfEach(seen, queue) == [node] + FirstOfEach(seen', queue[1..]);
    Associative(CheckedURLs(checks), [node], FirstOfEach(seen', queue[1..]));
  }

  lemma CheckedURLsAppend(checks: seq<Check>, c: Check)
    ensures CheckedURLs(checks + [c]) == CheckedURLs(checks) + [c.url]
    ensures Keys(CheckedURLs(checks + [c])) == Keys(CheckedURLs(checks)) + {NormalizeURL(c.url)}
  {
    assert CheckedURLs(checks + [c]) == CheckedURLs(checks) + [c.url];
    KeysOfConcat(CheckedURLs(checks), [c.url]);
    assert Keys([c.url]) == {NormalizeURL(c.url)};
  }

  lemma {:induction false} CheckKeepsOrder(start: seq<string>, checks: seq<Check>, crawls: seq<Reply>,
                                           seen: set<string>, queue: seq<string>, healthy: bool)
    requires Progress(start, checks, crawls, seen, queue)
    requires queue != [] && NormalizeURL(queue[0]) !in seen
    requires BreadthFirst(start, checks, crawls) && |crawls| == |HealthyURLs(checks)|
    ensures BreadthFirst(start, checks + [Check(queue[0], healthy)], crawls)
  {
    var checks' := checks + [Check(queue[0], healthy)];
    forall i | 0 <= i < |checks'| ensures ChecksNext(start, checks', crawls, i) {
      assert checks'[..i] == checks[..i];
      if i < |checks| {
        assert ChecksNext(start, checks, crawls, i);
      } else {
        assert checks[..i] == checks && crawls[..|crawls|] == crawls;
        assert FirstOfEach(seen, queue)[0] == queue[0];
      }
    }
  }

  lemma {:induction false} CrawlKeepsProgress(start: seq<string>, checks: seq<Check>, crawls: seq<Reply>,
                                              seen: set<string>, queue: seq<string>, reply: Reply)
    requires Progress(start, checks, crawls, seen, queue)
    ensures Progress(start, checks, crawls + [reply], seen, queue + Unseen(seen, reply.peers))
  {
    var offered, added := start + Peers(crawls), Unseen(seen, reply.peers);
    PeersAppend(start, crawls, reply);
    UnseenAddsNothingKnown(seen, seen + Keys(queue), reply.peers);
    assert Keys(offered + reply.peers) == seen + Keys(queue + added) by {
      KeysOfConcat(offered, reply.peers);
      KeysOfConcat(queue, added);
    }
    FirstOfEachAppend({}, offered, reply.peers);
    FirstOfEachAppend(seen, queue, added);
    assert {} + Keys(offered) == seen + Keys(queue);
    Associative(CheckedURLs(checks), FirstOfEach(seen, queue), FirstOfEach(seen + Keys(queue), added));
  }

  lemma {:induction false} PeersAppend(start: seq<string>, crawls: seq<Reply>, reply: Reply)
    ensures start + Peers(crawls + [reply]) == start + Peers(crawls) + reply.peers
  {
    assert (crawls + [reply])[..|crawls|] == crawls;
  }

  lemma CrawlKeepsOrder(start: seq<string>, checks: seq<Check>, crawls: seq<Reply>, reply: Reply)
    requires BreadthFirst(start, checks, crawls)
    ensures BreadthFirst(start, checks, crawls + [reply])
  {
    forall i | 0 <= i < |checks| ensures ChecksNext(start, checks, crawls + [reply], i) {
      assert ChecksNext(start, checks, crawls, i);
      var before := |HealthyURLs(checks[..i])|;
      assert (crawls + [reply])[..before] == crawls[..before];
    }
  }

  lemma {:induction false} HealthyAreCrawled(crawls: seq<Reply>, checks: seq<Check>)
    requires CrawledURLs(crawls) == HealthyURLs(checks)
    ensures |crawls| == |HealthyURLs(checks)|
  {
    assert |CrawledURLs(crawls)| == |crawls|;
  }

  /** When every url was checked under a normal form of its own, the discovered ones are healthy
      non-seeds with pairwise different normal forms. */
  lemma {:induction false} DiscoveredMeaning(seeds: seq<string>, checks: seq<Check>)
    requires KeysDiffer(CheckedURLs(checks))
    ensures var d := Discovered(seeds, checks);
            && (forall u :: u in d <==> Check(u, true) in checks && !IsSeed(seeds, u))
            && KeysDiffer(d)
  {
    if checks != [] {
      var front, last := checks[..|checks| - 1], checks[|checks| - 1];
      assert checks == front + [last];
      CheckedURLsAppend(front, last);
      var c := CheckedURLs(checks);
      assert forall i :: 0 <= i < |front| ==> CheckedURLs(front)[i] == c[i];
      DiscoveredMeaning(seeds, front);
      var d := Discovered(seeds, front);
      forall i | 0 <= i < |d| ensures NormalizeURL(d[i]) != NormalizeURL(last.url) {
        assert Check(d[i], true) in front;
        var j :| 0 <= j < |front| && front[j] == Check(d[i], true);
        assert c[j] == d[i] && c[|front|] == last.url;
      }
    }
  }

  lemma ProgressMeansDistinctChecks(start: seq<string>, checks: seq<Check>, crawls: seq<Reply>, seen: set<string>,
                                    queue: seq<string>)
    requires Progress(start, checks, crawls, seen, queue)
    ensures KeysDiffer(CheckedURLs(checks))
  {
    var r := FirstOfEach({}, start + Peers(crawls));
    FirstOfEachMeaning({}, start + Peers(crawls));
    var c := CheckedURLs(checks);
    forall i, j | 0 <= i < j < |c| ensures NormalizeURL(c[i]) != NormalizeURL(c[j]) {
      assert r[i] == c[i] && r[j] == c[j];
    }
  }

  ghost predicate CrawlState(seeds: seq<string>, start: seq<string>, checks: seq<Check>, crawls: seq<Reply>,
                             seen: set<string>, queue: seq<string>, newPool: seq<string>) {
    && Progress(start, checks, crawls, seen, queue)
    && BreadthFirst(start, checks, crawls)
    && CrawledURLs(crawls) == HealthyURLs(checks)
    && newPool == Discovered(seeds, checks)
  }

  lemma InitialState(seeds: seq<string>, start: seq<string>)
    ensures CrawlState(seeds, start, [], [], {}, start, [])
  {
    assert start + Peers([]) == start && CheckedURLs([]) == [];
  }

  lemma AfterSkip(seeds: seq<string>, start: seq<string>, checks: seq<Check>, crawls: seq<Reply>, seen: set<string>,
                  queue: seq<string>, newPool: seq<string>)
    requires CrawlState(seeds, start, checks, crawls, seen, queue, newPool)
    requires queue != [] && NormalizeURL(queue[0]) in seen
    ensures CrawlState(seeds, start, checks, crawls, seen, queue[1..], newPool)
  {
    SkipKeepsProgress(start, checks, crawls, seen, queue);
  }

  lemma AfterUnhealthy(seeds: seq<string>, start: seq<string>, checks: seq<Check>, crawls: seq<Reply>,
                       seen: set<string>, queue: seq<string>, newPool: seq<string>)
    requires CrawlState(seeds, start, checks, crawls, seen, queue, newPool)
    requires queue != [] && NormalizeURL(queue[0]) !in seen
    ensures CrawlState(seeds, start, checks + [Check(queue[0], false)], crawls, seen + {NormalizeURL(queue[0])},
                       queue[1..], newPool)
  {
    HealthyAreCrawled(crawls, checks);
    CheckKeepsProgress(start, checks, crawls, seen, queue, false);
    CheckKeepsOrder(start, checks, crawls, seen, queue, false);
    assert (checks + [Check(queue[0], false)])[..|checks|] == checks;
  }

  lemma {:induction false} LogsAppend(seeds: seq<string>, checks: seq<Check>, crawls: seq<Reply>, node: string,
                                      peers: seq<string>)
    ensures HealthyURLs(checks + [Check(node, true)]) == HealthyURLs(checks) + [node]
    ensures CrawledURLs(crawls + [Reply(node, peers)]) == CrawledURLs(crawls) + [node]
    ensures Discovered(seeds, checks + [Check(node, true)]) ==
            Discovered(seeds, checks) + if IsSeed(seeds, node) then [] else [node]
  {
    assert (checks + [Check(node, true)])[..|checks|] == checks;
  }

  lemma {:induction false} AfterHealthy(seeds: seq<string>, start: seq<string>, checks: seq<Check>, crawls: seq<Reply>,
                                        seen: set<string>, queue: seq<string>, newPool: seq<string>, peers: seq<string>)
    requires CrawlState(seeds, start, checks, crawls, seen, queue, newPool)
    requires queue != [] && NormalizeURL(queue[0]) !in seen
    ensures var node, seen' := queue[0], seen + {NormalizeURL(queue[0])};
            CrawlState(seeds, start, checks + [Check(node, true)], crawls + [Reply(node, peers)], seen',
                       queue[1..] + Unseen(seen', peers), newPool + if IsSeed(seeds, node) then [] else [node])
  {
    var node, seen' := queue[0], seen + {NormalizeURL(queue[0])};
    var checks' := checks + [Check(node, true)];
    HealthyAreCrawled(crawls, checks);
    CheckKeepsProgress(start, checks, crawls, seen, queue, true);
    CheckKeepsOrder(start, checks, crawls, seen, queue, true);
    CrawlKeepsProgress(start, checks', crawls, seen', queue[1..], Reply(node, peers));
    CrawlKeepsOrder(start, checks', crawls, Reply(node, peers));
    LogsAppend(seeds, checks, crawls, node, peers);
  }

  /** What a refresh leaves behind, read off the two call logs and what the queue still held. */
  ghost predicate Refreshed(seeds: seq<string>, oldPool: seq<string>, checks: seq<Check>, crawls: seq<Reply>,
                            seen: set<string>, pool: seq<string>, left: seq<string>) {
    && BreadthFirst(seeds + oldPool, checks, crawls)
    && CrawledURLs(crawls) == HealthyURLs(checks)
    && KeysDiffer(CheckedURLs(checks)) // at most one health check for each normal form
    && pool == Discovered(seeds, checks)
    // what was checked, followed by what was left unchecked, is everything offered
    && Progress(seeds + oldPool, checks, crawls, seen, left)
    && |crawls| <= MAX_CRAWLED + 1
    && (left == [] || |pool| == MAX_POOL_SIZE || |crawls| == MAX_CRAWLED + 1)
  }

  // No two entries with the same normal form, and no seed among them.
  predicate GoodPool(seeds: seq<string>, pool: seq<string>) {
    && |pool| <= MAX_POOL_SIZE
    && KeysDiffer(pool)
    && forall i :: 0 <= i < |pool| ==> !IsSeed(seeds, pool[i])
  }

  lemma FinalState(seeds: seq<string>, oldPool: seq<string>, checks: seq<Check>, crawls: seq<Reply>, seen: set<string>,
                   queue: seq<string>, newPool: seq<string>)
    requires CrawlState(seeds, seeds + oldPool, checks, crawls, seen, queue, newPool)
    requires |newPool| <= MAX_POOL_SIZE && |crawls| <= MAX_CRAWLED + 1
    requires queue == [] || |newPool| == MAX_POOL_SIZE || |crawls| == MAX_CRAWLED + 1
    ensures Refreshed(seeds, oldPool, checks, crawls, seen, newPool, queue)
    ensures GoodPool(seeds, newPool)
  {
    ProgressMeansDistinctChecks(seeds + oldPool, checks, crawls, seen, queue);
    DiscoveredMeaning(seeds, checks);
  }

  // The queue was empty at the end, or held only urls of normal forms seen already.
  predicate Drained(seen: set<string>, left: seq<string>) {
    Keys(left) <= seen
  }

  lemma {:induction false} DrainedIff(seen: set<string>, left: seq<string>)
    ensures Drained(seen, left) <==> FirstOfEach(seen, left) == []
  {
    var rest := FirstOfEach(seen, left);
    FirstOfEachKeys(seen, left);
    if rest != [] {
      assert NormalizeURL(rest[0]) in Keys(rest);
    } else {
      assert Keys(rest) == {};
      assert forall k :: k in Keys(left) ==> k in Keys(rest) || k in seen;
    }
  }

  lemma NothingAppended(a: seq<string>, b: seq<string>)
    ensures a + b == a <==> b == []
  {
    assert |a + b| == |a| + |b|;
  }

  lemma {:induction false} DrainedMeansAllChecked(start: seq<string>, checks: seq<Check>, crawls: seq<Reply>,
                                                  seen: set<string>, left: seq<string>)
    requires Progress(start, checks, crawls, seen, left)
    ensures Drained(seen, left) <==> CheckedURLs(checks) == FirstOfEach({}, start + Peers(crawls))
    ensures Drained(seen, left) <==> seen == Keys(start + Peers(crawls))
  {
    DrainedIff(seen, left);
    NothingAppended(CheckedURLs(checks), FirstOfEach(seen, left));
  }

  /** Closure: the seen keys are exactly those of the seeds, the old pool and every peer answered if and
      only if the queue was drained. In any case the new pool is exactly the urls checked that were
      healthy and are no seeds, and each of them is the first one offered with its key. */
  lemma {:induction false} CrawlClosure(seeds: seq<string>, oldPool: seq<string>, checks: seq<Check>,
                                        crawls: seq<Reply>, seen: set<string>, pool: seq<string>, left: seq<string>,
                                        u: string)
    requires Refreshed(seeds, oldPool, checks, crawls, seen, pool, left)
    ensures Drained(seen, left) <==> seen == Keys(seeds) + Keys(oldPool) + Keys(Peers(crawls))
    ensures u in pool <==> Check(u, true) in checks && !IsSeed(seeds, u)
    ensures u in CheckedURLs(checks) ==> IsFirst(seeds + oldPool + Peers(crawls), u)
  {
    var offered := seeds + oldPool + Peers(crawls);
    FirstOfEachMeaning({}, offered);
    DrainedMeansAllChecked(seeds + oldPool, checks, crawls, seen, left);
    KeysOfConcat(seeds + oldPool, Peers(crawls));
    KeysOfConcat(seeds, oldPool);
    DiscoveredMeaning(seeds, checks);
    if u in CheckedURLs(checks) {
      var j :| 0 <= j < |checks| && CheckedURLs(checks)[j] == u;
      assert FirstOfEach({}, offered)[j] == u;
    }
  }

  // ------------------------------------------------------------ reachability

  /** A path over the network: it starts at a start url, and each next url is a peer that a healthy
      node answers. */
  ghost predicate IsPath(start: seq<string>, healthy: string -> bool, peers: string -> seq<string>, path: seq<string>) {
    && path != []
    && path[0] in start
    && forall i :: 0 <= i < |path| - 1 ==> healthy(path[i]) && path[i + 1] in peers(path[i])
  }

  ghost predicate Reachable(start: seq<string>, healthy: string -> bool, peers: string -> seq<string>, url: string) {
    exists path :: IsPath(start, healthy, peers, path) && path[|path| - 1] == url
  }

  // Every call of the logs got the answer the network gives for that url.
  ghost predicate Answers(healthy: string -> bool, peers: string -> seq<string>, checks: seq<Check>, crawls: seq<Reply>)
  {
    && (forall i :: 0 <= i < |checks| ==> checks[i].healthy == healthy(checks[i].url))
    && (forall i :: 0 <= i < |crawls| ==> crawls[i].peers == peers(crawls[i].url))
  }

  // Urls with the same normal form name the same node.
  ghost predicate SameNode(healthy: string -> bool, peers: string -> seq<string>) {
    && (forall u, v {:trigger healthy(u), healthy(v)} :: NormalizeURL(u) == NormalizeURL(v) ==>
        healthy(u) == healthy(v))
    && (forall u, v {:trigger peers(u), peers(v)} :: NormalizeURL(u) == NormalizeURL(v) ==>
        Keys(peers(u)) == Keys(peers(v)))
  }

  lemma {:induction false} PeersMembers(crawls: seq<Reply>)
    ensures forall u :: u in Peers(crawls) <==> exists m :: 0 <= m < |crawls| && u in crawls[m].peers
  {
    if crawls != [] {
      var front := crawls[..|crawls| - 1];
      PeersMembers(front);
      assert forall m :: 0 <= m < |front| ==> front[m] == crawls[m];
    }
  }

  lemma {:induction false} HealthyMembers(checks: seq<Check>, i: nat)
    requires i <= |checks|
    ensures HealthyURLs(checks[..i]) <= HealthyURLs(checks)
    ensures forall u :: u in HealthyURLs(checks) <==> Check(u, true) in checks
    decreases |checks|
  {
    if checks == [] {
    } else {
      var front := checks[..|checks| - 1];
      assert checks == front + [checks[|checks| - 1]];
      HealthyMembers(front, if i < |checks| then i else |front|);
      if i < |checks| {
        assert checks[..i] == front[..i];
      } else {
        assert checks[..i] == checks;
      }
    }
  }

  /** Whatever is checked is reachable: the crawl invents no url, caps or not. */
  lemma {:induction false} CheckedIsReachable(start: seq<string>, healthy: string -> bool, peers: string -> seq<string>,
                                              checks: seq<Check>, crawls: seq<Reply>, i: nat)
    requires BreadthFirst(start, checks, crawls) && CrawledURLs(crawls) == HealthyURLs(checks)
    requires Answers(healthy, peers, checks, crawls)
    requires i < |checks|
    ensures Reachable(start, healthy, peers, checks[i].url)
    decreases i
  {
    var u := checks[i].url;
    assert ChecksNext(start, checks, crawls, i);
    var before := |HealthyURLs(checks[..i])|;
    FirstOfEachIsFirst({}, start + Peers(crawls[..before]), i);
    assert u in start + Peers(crawls[..before]);
    if u in start {
      assert IsPath(start, healthy, peers, [u]);
    } else {
      PeersMembers(crawls[..before]);
      var m :| 0 <= m < before && u in crawls[..before][m].peers;
      HealthyMembers(checks, i);
      HealthyMembers(checks[..i], i);
      assert CrawledURLs(crawls)[m] == crawls[m].url;
      assert HealthyURLs(checks[..i])[m] == crawls[m].url;
      var j :| 0 <= j < i && checks[..i][j] == Check(crawls[m].url, true);
      CheckedIsReachable(start, healthy, peers, checks, crawls, j);
      ExtendPath(start, healthy, peers, crawls[m].url, u);
    }
  }

  /** So is whatever was offered, checked or not. */
  lemma {:induction false} OfferedIsReachable(start: seq<string>, healthy: string -> bool, peers: string -> seq<string>,
                                              checks: seq<Check>, crawls: seq<Reply>, u: string)
    requires BreadthFirst(start, checks, crawls) && CrawledURLs(crawls) == HealthyURLs(checks)
    requires Answers(healthy, peers, checks, crawls)
    requires u in start + Peers(crawls)
    ensures Reachable(start, healthy, peers, u)
  {
    if u in start {
      assert IsPath(start, healthy, peers, [u]);
    } else {
      PeersMembers(crawls);
      var m :| 0 <= m < |crawls| && u in crawls[m].peers;
      assert CrawledURLs(crawls)[m] == crawls[m].url;
      HealthyMembers(checks, |checks|);
      var j :| 0 <= j < |checks| && checks[j] == Check(crawls[m].url, true);
      CheckedIsReachable(start, healthy, peers, checks, crawls, j);
      ExtendPath(start, healthy, peers, crawls[m].url, u);
    }
  }

  lemma ExtendPath(start: seq<string>, healthy: string -> bool, peers: string -> seq<string>, u: string, v: string)
    requires Reachable(start, healthy, peers, u) && healthy(u) && v in peers(u)
    ensures Reachable(start, healthy, peers, v)
  {
    var path :| IsPath(start, healthy, peers, path) && path[|path| - 1] == u;
    assert IsPath(start, healthy, peers, path + [v]);
    assert (path + [v])[|path + [v]| - 1] == v;
  }

  /** A crawl that has checked everything offered misses nothing: every reachable url has been checked,
      under the first url with its normal form. */
  lemma {:induction false} ReachableIsChecked(start: seq<string>, healthy: string -> bool, peers: string -> seq<string>,
                                              checks: seq<Check>, crawls: seq<Reply>, path: seq<string>)
    requires CrawledURLs(crawls) == HealthyURLs(checks)
    requires CheckedURLs(checks) == FirstOfEach({}, start + Peers(crawls))
    requires Answers(healthy, peers, checks, crawls) && SameNode(healthy, peers)
    requires IsPath(start, healthy, peers, path)
    ensures NormalizeURL(path[|path| - 1]) in Keys(CheckedURLs(checks))
    decreases |path|
  {
    var u := path[|path| - 1];
    FirstOfEachKeys({}, start + Peers(crawls));
    if |path| == 1 {
      assert u in start + Peers(crawls);
    } else {
      var front := path[..|path| - 1];
      assert IsPath(start, healthy, peers, front);
      ReachableIsChecked(start, healthy, peers, checks, crawls, front);
      PeersOfHealthyAreOffered(start, healthy, peers, checks, crawls, front[|front| - 1], u);
    }
  }

  // What a checked healthy node answers, under any of its urls, has been offered.
  lemma {:induction false} PeersOfHealthyAreOffered(start: seq<string>, healthy: string -> bool,
                                                    peers: string -> seq<string>, checks: seq<Check>,
                                                    crawls: seq<Reply>, w: string, u: string)
    requires CrawledURLs(crawls) == HealthyURLs(checks)
    requires Answers(healthy, peers, checks, crawls) && SameNode(healthy, peers)
    requires NormalizeURL(w) in Keys(CheckedURLs(checks)) && healthy(w) && u in peers(w)
    ensures NormalizeURL(u) in Keys(start + Peers(crawls))
  {
    var c :| c in CheckedURLs(checks) && NormalizeURL(c) == NormalizeURL(w);
    var j :| 0 <= j < |checks| && CheckedURLs(checks)[j] == c;
    assert checks[j] == Check(c, true);
    HealthyMembers(checks, |checks|);
    var m :| 0 <= m < |crawls| && CrawledURLs(crawls)[m] == c;
    assert Keys(peers(w)) == Keys(crawls[m].peers) && NormalizeURL(u) in Keys(peers(w));
    var p :| p in crawls[m].peers && NormalizeURL(p) == NormalizeURL(u);
    PeersMembers(crawls);
    assert p in start + Peers(crawls);
  }

  ghost predicate ReachableKey(start: seq<string>, healthy: string -> bool, peers: string -> seq<string>, key: string) {
    exists u :: Reachable(start, healthy, peers, u) && NormalizeURL(u) == key
  }

  /** The crawl computes reachability. What is seen is reachable, and the seen keys are exactly the
      normal forms of the reachable urls if and only if the queue was drained; then the new pool
      holds exactly one url for each of them that is healthy and no seed. */
  lemma CrawlIsReachability(seeds: seq<string>, oldPool: seq<string>, healthy: string -> bool,
                            peers: string -> seq<string>, checks: seq<Check>, crawls: seq<Reply>, seen: set<string>,
                            pool: seq<string>, left: seq<string>)
    requires Refreshed(seeds, oldPool, checks, crawls, seen, pool, left)
    requires Answers(healthy, peers, checks, crawls) && SameNode(healthy, peers)
    ensures forall key :: key in seen ==> ReachableKey(seeds + oldPool, healthy, peers, key)
    ensures Drained(seen, left) <==> forall key :: ReachableKey(seeds + oldPool, healthy, peers, key) ==> key in seen
    ensures Drained(seen, left) ==>
              forall u :: Reachable(seeds + oldPool, healthy, peers, u) ==>
                            (NormalizeURL(u) in Keys(pool) <==> healthy(u) && !IsSeed(seeds, u))
  {
    var start := seeds + oldPool;
    forall key | key in seen + Keys(left) ensures ReachableKey(start, healthy, peers, key) {
      OfferedKeyIsReachable(start, healthy, peers, checks, crawls, key);
    }
    if Drained(seen, left) {
      forall u | Reachable(start, healthy, peers, u)
        ensures NormalizeURL(u) in seen
        ensures NormalizeURL(u) in Keys(pool) <==> healthy(u) && !IsSeed(seeds, u)
      {
        ReachableIsSeen(seeds, oldPool, healthy, peers, checks, crawls, seen, pool, left, u);
      }
    }
  }

  lemma {:induction false} OfferedKeyIsReachable(start: seq<string>, healthy: string -> bool,
                                                 peers: string -> seq<string>, checks: seq<Check>, crawls: seq<Reply>,
                                                 key: string)
    requires BreadthFirst(start, checks, crawls) && CrawledURLs(crawls) == HealthyURLs(checks)
    requires Answers(healthy, peers, checks, crawls)
    requires key in Keys(start + Peers(crawls))
    ensures ReachableKey(start, healthy, peers, key)
  {
    var u :| u in start + Peers(crawls) && NormalizeURL(u) == key;
    OfferedIsReachable(start, healthy, peers, checks, crawls, u);
  }

  lemma ReachableIsSeen(seeds: seq<string>, oldPool: seq<string>, healthy: string -> bool, peers: string -> seq<string>,
                        checks: seq<Check>, crawls: seq<Reply>, seen: set<string>, pool: seq<string>, left: seq<string>,
                        u: string)
    requires Refreshed(seeds, oldPool, checks, crawls, seen, pool, left) && Drained(seen, left)
    requires Answers(healthy, peers, checks, crawls) && SameNode(healthy, peers)
    requires Reachable(seeds + oldPool, healthy, peers, u)
    ensures NormalizeURL(u) in seen
    ensures NormalizeURL(u) in Keys(pool) <==> healthy(u) && !IsSeed(seeds, u)
  {
    var start := seeds + oldPool;
    var path :| IsPath(start, healthy, peers, path) && path[|path| - 1] == u;
    DrainedMeansAllChecked(start, checks, crawls, seen, left);
    ReachableIsChecked(start, healthy, peers, checks, crawls, path);
    assert forall v :: NormalizeURL(v) == NormalizeURL(u) ==> healthy(v) == healthy(u);
    PoolEntryOf(seeds, healthy, checks, pool, u);
  }

  lemma {:induction false} PoolEntryOf(seeds: seq<string>, healthy: string -> bool, checks: seq<Check>,
                                       pool: seq<string>, u: string)
    requires KeysDiffer(CheckedURLs(checks)) && pool == Discovered(seeds, checks)
    requires forall i :: 0 <= i < |checks| ==> checks[i].healthy == healthy(checks[i].url)
    requires forall v :: NormalizeURL(v) == NormalizeURL(u) ==> healthy(v) == healthy(u)
    requires NormalizeURL(u) in Keys(CheckedURLs(checks))
    ensures NormalizeURL(u) in Keys(pool) <==> healthy(u) && !IsSeed(seeds, u)
  {
    var c :| c in CheckedURLs(checks) && NormalizeURL(c) == NormalizeURL(u);
    SeedsByKey(seeds, c, u);
    assert healthy(c) == healthy(u);
    DiscoveredEntry(seeds, healthy, checks, c);
    if NormalizeURL(u) in Keys(pool) {
      var d :| d in pool && NormalizeURL(d) == NormalizeURL(u);
      DiscoveredEntry(seeds, healthy, checks, d);
      SeedsByKey(seeds, d, u);
    }
  }

  lemma {:induction false} DiscoveredEntry(seeds: seq<string>, healthy: string -> bool, checks: seq<Check>, u: string)
    requires KeysDiffer(CheckedURLs(checks))
    requires forall i :: 0 <= i < |checks| ==> checks[i].healthy == healthy(checks[i].url)
    ensures u in Discovered(seeds, checks) ==> healthy(u) && !IsSeed(seeds, u)
    ensures u in CheckedURLs(checks) && healthy(u) && !IsSeed(seeds, u) ==> u in Discovered(seeds, checks)
  {
    DiscoveredMeaning(seeds, checks);
    if u in CheckedURLs(checks) {
      var j :| 0 <= j < |checks| && CheckedURLs(checks)[j] == u;
      assert checks[j] == Check(u, healthy(u));
    }
  }

  lemma SeedsByKey(seeds: seq<string>, u: string, v: string)
    requires NormalizeURL(u) == NormalizeURL(v)
    ensures IsSeed(seeds, u) <==> IsSeed(seeds, v)
  {
  }

  // ------------------------------------------------------------ the crawl

  class Discovery {
    const seedNodes: seq<string>
    var pool: seq<string>
    var seen: set<string>

    // The network calls of the latest refresh, in order.
    ghost var requests: seq<Request>
    ghost var checks: seq<Check>
    ghost var crawls: seq<Reply>
    ghost var left: seq<string> // what the queue still held at its end

    ghost predicate Valid()
      reads this
    {
      GoodPool(seedNodes, pool)
    }

    constructor (seeds: seq<string>)
      ensures Valid() && seedNodes == seeds && pool == []
    {
      seedNodes, pool, seen, requests, checks, crawls, left := seeds, [], {}, [], [], [], [];
    }

    method IsSeedNode(node: string) returns (found: bool)
      ensures found <==> IsSeed(seedNodes, node)
    {
      for i := 0 to |seedNodes|
        invariant forall j :: 0 <= j < i ==> NormalizeURL(seedNodes[j]) != NormalizeURL(node)
      {
        if NormalizeURL(seedNodes[i]) == NormalizeURL(node) {
          return true;
        }
      }
      return false;
    }

    /** The nodes handed to the resolver: the seeds, then the pool. The duplicate filter of the
        loop never fires on a pool the crawl has made. */
    method GetNodes() returns (result: seq<string>)
      requires Valid()
      ensures result == seedNodes + pool
    {
      result := seedNodes;
      for i := 0 to |pool|
        invariant result == seedNodes + pool[..i]
      {
        var known := IsSeedNode(pool[i]);
        if !known {
          result := result + [pool[i]];
        }
        assert pool[..i + 1] == pool[..i] + [pool[i]];
      }
      assert pool[..|pool|] == pool;
    }

    // Nothing is known about what a node answers; an answer that is not OK brings no peers.
    method Get(url: string) returns (ok: bool, peers: seq<string>)
      modifies this`requests
      ensures requests == old(requests) + [Request(url, ok, peers)]
      ensures !ok ==> peers == []
    {
      ok, peers := *, [];
      if ok {
        peers := *;
      }
      requests := requests + [Request(url, ok, peers)];
    }

    method HealthCheck(node: string) returns (healthy: bool)
      modifies this`requests
      ensures old(requests) <= requests && HealthRequests(node, requests[|old(requests)|..], healthy)
    {
      var peers: seq<string>;
      healthy, peers := Get(Endpoint(node, "/dnn/health"));
      if !healthy {
        healthy, peers := Get(Endpoint(node, "/dnn/resolve/nabtaabove"));
      }
    }

    method CrawlNode(node: string) returns (peers: seq<string>)
      modifies this`requests
      ensures old(requests) <= requests && CrawlRequests(node, requests[|old(requests)|..], peers)
    {
      var ok1, peers1 := Get(Endpoint(node, "/dnn/peers"));
      var ok2, peers2 := Get(Endpoint(node, "/dnn/discovered-peers"));
      peers := peers1 + peers2;
    }

    // A health check, recorded.
    method CheckNode(node: string) returns (healthy: bool)
      requires Sent(requests, checks, crawls)
      modifies this`requests, this`checks
      ensures checks == old(checks) + [Check(node, healthy)]
      ensures if healthy then SentButCrawl(requests, checks, crawls) else Sent(requests, checks, crawls)
    {
      healthy := HealthCheck(node);
      ghost var health := requests[|old(requests)|..];
      if healthy {
        SentHealthy(old(requests), checks, crawls, node, health);
      } else {
        SentUnhealthy(old(requests), checks, crawls, node, health);
      }
      assert requests == old(requests) + health;
      checks := checks + [Check(node, healthy)];
    }

    // A crawl, recorded.
    method AskForPeers(node: string) returns (peers: seq<string>)
      requires SentButCrawl(requests, checks, crawls) && checks[|checks| - 1].url == node
      modifies this`requests, this`crawls
      ensures crawls == old(crawls) + [Reply(node, peers)]
      ensures Sent(requests, checks, crawls)
    {
      peers := CrawlNode(node);
      ghost var crawl := requests[|old(requests)|..];
      SentCrawl(old(requests), checks, crawls, node, crawl, peers);
      assert requests == old(requests) + crawl;
      crawls := crawls + [Reply(node, peers)];
    }

    method EnqueueUnseen(queue: seq<string>, peers: seq<string>) returns (queue': seq<string>)
      ensures queue' == queue + Unseen(seen, peers)
    {
      queue' := queue;
      for i := 0 to |peers|
        invariant queue' == queue + Unseen(seen, peers[..i])
      {
        assert peers[..i + 1][..i] == peers[..i];
        if NormalizeURL(peers[i]) !in seen {
          queue' := queue' + [peers[i]];
        }
      }
      assert peers[..|peers|] == peers;
    }

    ghost predicate Crawling(start: seq<string>, queue: seq<string>, newPool: seq<string>)
      reads this
    {
      CrawlState(seedNodes, start, checks, crawls, seen, queue, newPool) && Sent(requests, checks, crawls)
    }

    // What the loop does with a node not seen yet.
    method Visit(nodesToCrawl: seq<string>, newPool: seq<string>, ghost start: seq<string>)
      returns (queue: seq<string>, pool': seq<string>, healthy: bool)
      requires Crawling(start, nodesToCrawl, newPool) && |newPool| < MAX_POOL_SIZE
      requires nodesToCrawl != [] && NormalizeURL(nodesToCrawl[0]) !in seen
      modifies this`seen, this`requests, this`checks, this`crawls
      ensures Crawling(start, queue, pool')
      ensures |pool'| <= MAX_POOL_SIZE
      ensures !healthy ==> crawls == old(crawls) && queue == nodesToCrawl[1..] && pool' == newPool
      ensures healthy ==> |crawls| == |old(crawls)| + 1
    {
      var node := nodesToCrawl[0];
      queue, pool' := nodesToCrawl[1..], newPool;
      seen := seen + {NormalizeURL(node)};
      healthy := CheckNode(node);
      if !healthy {
        AfterUnhealthy(seedNodes, start, old(checks), crawls, old(seen), nodesToCrawl, newPool);
        return;
      }
      var isSeed := IsSeedNode(node);
      if !isSeed && |newPool| < MAX_POOL_SIZE {
        pool' := pool' + [node];
      }
      var peers := AskForPeers(node);
      queue := EnqueueUnseen(queue, peers);
      AfterHealthy(seedNodes, start, old(checks), old(crawls), old(seen), nodesToCrawl, newPool, peers);
    }

    method RefreshPool()
      requires Valid()
      modifies this
      ensures Valid()
      ensures Refreshed(seedNodes, old(pool), checks, crawls, seen, pool, left)
      ensures |pool| <= 21 && |crawls| <= 51 && (left == [] || |pool| == 21 || |crawls| == 51)
      ensures Sent(requests, checks, crawls)
    {
      seen, requests, checks, crawls := {}, [], [], [];
      var nodesToCrawl := seedNodes + pool;
      ghost var start := nodesToCrawl;
      var newPool: seq<string> := [];
      var crawled := 0;
      InitialState(seedNodes, start);

      while |nodesToCrawl| > 0 && |newPool| < MAX_POOL_SIZE
        invariant Crawling(start, nodesToCrawl, newPool)
        invariant crawled == |crawls| <= MAX_CRAWLED
        invariant |newPool| <= MAX_POOL_SIZE
        invariant pool == old(pool)
        decreases MAX_CRAWLED + 1 - crawled, |nodesToCrawl|
      {
        if NormalizeURL(nodesToCrawl[0]) in seen {
          AfterSkip(seedNodes, start, checks, crawls, seen, nodesToCrawl, newPool);
          nodesToCrawl := nodesToCrawl[1..];
          continue;
        }
        var healthy: bool;
        nodesToCrawl, newPool, healthy := Visit(nodesToCrawl, newPool, start);
        if !healthy {
          continue;
        }
        crawled := crawled + 1;
        if crawled > MAX_CRAWLED {
          break;
        }
      }
      FinalState(seedNodes, old(pool), checks, crawls, seen, nodesToCrawl, newPool);
      pool, left := newPool, nodesToCrawl;
    }
  }
}
