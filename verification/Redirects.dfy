// Redirect chains: where Authorization goes, and how long a chain can be. The stock handler is
// the one of CPython's urllib.request.
module Redirects {
  import opened Common

  // ---- URLs and origins -----------------------------------------------------------------

  // A URL as urlsplit takes it apart. Asking a malformed port for its number raises.
  datatype Port = NoPort | Port(number: nat) | BadPort
  datatype Url = Url(scheme: string, host: string, port: Port, rest: string)

  datatype Origin = Origin(scheme: string, host: string, port: int)

  function LowerChar(c: char): char {
    if 'A' <= c <= 'Z' then c - 'A' + 'a' else c
  }

  function Lower(s: string): (r: string)
    ensures |r| == |s|
  {
    seq(|s|, i requires 0 <= i < |s| => LowerChar(s[i]))
  }

  function DefaultPort(scheme: string): int {
    if scheme == "http" then 80 else if scheme == "https" then 443 else -1
  }

  /** _origin: None is the ValueError of a malformed port. */
  function OriginOf(url: Url): Option<Origin> {
    var scheme := Lower(url.scheme);
    match url.port
    case BadPort => None
    case NoPort => Some(Origin(scheme, Lower(url.host), DefaultPort(scheme)))
    case Port(n) => Some(Origin(scheme, Lower(url.host), n))
  }

  // What a Location header says, relative to the URL that was asked.
  datatype Location = Absolute(url: Url) | NetworkPath(host: string, port: Port, rest: string) | Relative(rest: string)

  function Resolve(base: Url, l: Location): Url {
    match l
    case Absolute(url) => url
    case NetworkPath(host, port, rest) => Url(base.scheme, host, port, rest)
    case Relative(rest) => base.(rest := rest)
  }

  // ---- One hop --------------------------------------------------------------------------------

  type Headers = map<string, string>

  datatype Method = Get | Head | Post | Other(name: string)
  datatype Request = Request(url: Url, verb: Method, headers: Headers)

  predicate IsAuthorization(key: string) {
    Lower(key) == "authorization"
  }

  predicate IsContentHeader(key: string) {
    Lower(key) == "content-length" || Lower(key) == "content-type"
  }

  function WithoutContent(h: Headers): Headers {
    map k | k in h && !IsContentHeader(k) :: h[k]
  }

  function WithoutAuthorization(h: Headers): Headers {
    map k | k in h && !IsAuthorization(k) :: h[k]
  }

  predicate Redirectable(code: nat, verb: Method) {
    || ((code == 301 || code == 302 || code == 303 || code == 307 || code == 308) && (verb.Get? || verb.Head?))
    || ((code == 301 || code == 302 || code == 303) && verb.Post?)
  }

  // A hop that is not taken: the server's 3xx is the response, the chain is used up, or
  // comparing origins raised.
  datatype Halt = IsResponse | Exhausted | ValueError

  function Verb(verb: Method): Method {
    if verb.Head? then Head else Get
  }

  /** redirect_request: the next request is made from this one, headers and all. */
  function RedirectRequest(req: Request, code: nat, url: Url): Result<Request, Halt> {
    if !Redirectable(code, req.verb) then Err(IsResponse)
    else if OriginOf(req.url).None? || OriginOf(url).None? then Err(ValueError)
    else
      var headers := WithoutContent(req.headers);
      Ok(Request(url, Verb(req.verb), if OriginOf(req.url) != OriginOf(url) then WithoutAuthorization(headers) else headers))
  }

  const MAX_REDIRECTIONS := 10
  const MAX_REPEATS := 4

  // How often the chain went to each URL; not there before the first redirect.
  type Visited = Option<map<Url, nat>>

  function Times(v: Visited, url: Url): nat {
    if v.Some? && url in v.value then v.value[url] else 0
  }

  function Visit(v: Visited, url: Url): Visited {
    Some((if v.Some? then v.value else map[])[url := Times(v, url) + 1])
  }

  predicate Followable(url: Url) {
    url.scheme == "http" || url.scheme == "https" || url.scheme == "ftp"
  }

  // A redirect answer: its code, and where it points if it says so.
  datatype Answer = Answer(code: nat, location: Option<Location>)

  /** The request an answer asks for, the chain so far aside. */
  function Redirected(req: Request, a: Answer): (r: Result<Request, Halt>)
    ensures r.Ok? ==> a.location.Some? && r.value.url == Resolve(req.url, a.location.value)
  {
    if a.location.None? then Err(IsResponse)
    else if a.location.value.Absolute? && !Followable(a.location.value.url) then Err(IsResponse)
    else RedirectRequest(req, a.code, Resolve(req.url, a.location.value))
  }

  /** http_error_302: what comes after this answer to this request. */
  function Follow(req: Request, v: Visited, a: Answer): Result<(Request, Visited), Halt> {
    match Redirected(req, a)
    case Err(halt) => Err(halt)
    case Ok(next) =>
      if v.Some? && (Times(v, next.url) >= MAX_REPEATS || |v.value| >= MAX_REDIRECTIONS) then Err(Exhausted)
      else Ok((next, Visit(v, next.url)))
  }

  /** The requests of a chain, for servers that would go on answering like this. */
  function Chain(req: Request, v: Visited, answers: seq<Answer>): (r: seq<Request>)
    ensures r != [] && r[0] == req
    decreases |answers|
  {
    if answers == [] then [req]
    else
      match Follow(req, v, answers[0])
      case Err(_) => [req]
      case Ok((next, v')) => [req] + Chain(next, v', answers[1..])
  }

  // ---- Where Authorization goes --------------------------------------------------------------

  predicate CarriesAuthorization(req: Request) {
    exists k :: k in req.headers && IsAuthorization(k)
  }

  /** The headers of a hop, given the ones of the first request. */
  function Forwarded(h: Headers, sameOrigin: bool): Headers {
    if sameOrigin then WithoutContent(h) else WithoutAuthorization(WithoutContent(h))
  }

  predicate SameOriginUpTo(reqs: seq<Request>, k: nat)
    requires k < |reqs|
  {
    forall j :: 0 <= j <= k ==> OriginOf(reqs[j].url) == OriginOf(reqs[0].url)
  }

  lemma ForwardedAgain(h: Headers, first: bool, second: bool)
    ensures Forwarded(Forwarded(h, first), second) == Forwarded(h, first && second)
    ensures Forwarded(WithoutContent(h), first) == Forwarded(h, first)
  {
  }

  lemma ChainStep(req: Request, v: Visited, answers: seq<Answer>)
    requires |Chain(req, v, answers)| > 1
    ensures answers != [] && Follow(req, v, answers[0]).Ok?
  {
  }

  lemma ChainFollows(req: Request, v: Visited, answers: seq<Answer>)
    requires answers != [] && Follow(req, v, answers[0]).Ok?
    ensures var (next, v') := Follow(req, v, answers[0]).value;
            Chain(req, v, answers) == [req] + Chain(next, v', answers[1..])
  {
  }

  lemma FollowForwards(req: Request, v: Visited, a: Answer)
    requires Follow(req, v, a).Ok?
    ensures var next := Follow(req, v, a).value.0;
            next.headers == Forwarded(req.headers, OriginOf(req.url) == OriginOf(next.url))
  {
  }

  // The headers of the (k+1)st request of one chain, given those of the k-th of its tail.
  lemma HeadersPrepend(req: Request, rest: seq<Request>, k: nat)
    requires k < |rest|
    requires rest[0].headers == Forwarded(req.headers, OriginOf(req.url) == OriginOf(rest[0].url))
    requires rest[k].headers == if k == 0 then rest[0].headers else Forwarded(rest[0].headers, SameOriginUpTo(rest, k))
    ensures rest[k].headers == Forwarded(req.headers, SameOriginUpTo([req] + rest, k + 1))
  {
    var reqs := [req] + rest;
    assert forall j :: 0 <= j <= k ==> reqs[j + 1] == rest[j];
    assert SameOriginUpTo(reqs, k + 1) <==> OriginOf(req.url) == OriginOf(rest[0].url) && SameOriginUpTo(rest, k) by {
      if SameOriginUpTo(reqs, k + 1) {
        forall j | 0 <= j <= k
          ensures OriginOf(rest[j].url) == OriginOf(rest[0].url)
        {
          assert OriginOf(reqs[j + 1].url) == OriginOf(reqs[0].url) == OriginOf(reqs[1].url);
        }
      }
    }
    ForwardedAgain(req.headers, OriginOf(req.url) == OriginOf(rest[0].url), SameOriginUpTo(rest, k));
  }

  /** What every hop sends: the first request's headers without those of its content, and
      without Authorization unless every URL so far has the first one's origin. */
  lemma {:induction false} HeadersAlongChain(req: Request, v: Visited, answers: seq<Answer>, k: nat)
    requires 0 < k < |Chain(req, v, answers)|
    ensures Chain(req, v, answers)[k].headers == Forwarded(req.headers, SameOriginUpTo(Chain(req, v, answers), k))
    decreases |answers|
  {
    ChainStep(req, v, answers);
    ChainFollows(req, v, answers);
    FollowForwards(req, v, answers[0]);
    var (next, v') := Follow(req, v, answers[0]).value;
    if k > 1 {
      HeadersAlongChain(next, v', answers[1..], k - 1);
    }
    HeadersPrepend(req, Chain(next, v', answers[1..]), k - 1);
  }

  lemma ForwardsAuthorization(h: Headers, same: bool, k: string)
    requires IsAuthorization(k)
    ensures k in Forwarded(h, same) <==> k in h && same
    ensures k in Forwarded(h, same) ==> Forwarded(h, same)[k] == h[k]
  {
    assert !IsContentHeader(k) by {
      assert "authorization"[0] == 'a' && "content-length"[0] == 'c' && "content-type"[0] == 'c';
    }
  }

  /** A request along a chain carries Authorization exactly if the first one did and no URL up
      to it has another origin: scheme, host and port. So what one hop took away no later hop
      brings back, though it return to where the chain began. */
  lemma AuthorizationAlongChain(req: Request, answers: seq<Answer>, k: nat)
    requires k < |Chain(req, None, answers)|
    ensures var reqs := Chain(req, None, answers);
            CarriesAuthorization(reqs[k]) <==> CarriesAuthorization(req) && SameOriginUpTo(reqs, k)
    ensures forall key :: IsAuthorization(key) && key in Chain(req, None, answers)[k].headers ==>
              key in req.headers && Chain(req, None, answers)[k].headers[key] == req.headers[key]
  {
    var reqs := Chain(req, None, answers);
    if k > 0 {
      HeadersAlongChain(req, None, answers, k);
      var same := SameOriginUpTo(reqs, k);
      forall key | IsAuthorization(key)
        ensures key in reqs[k].headers <==> key in req.headers && same
        ensures key in reqs[k].headers ==> reqs[k].headers[key] == req.headers[key]
      {
        ForwardsAuthorization(req.headers, same, key);
      }
    }
  }

  // ---- How long a chain can be ------------------------------------------------------------------

  /** `v` counts the URLs the chain was redirected to so far. */
  ghost predicate Counts(v: Visited, targets: seq<Url>) {
    && (v.None? <==> targets == [])
    && (v.Some? ==> v.value.Keys == Distinct(targets) && forall u :: u in v.value ==> v.value[u] == Occurs(targets, u))
  }

  function Distinct(targets: seq<Url>): set<Url> {
    set u | u in targets
  }

  function Occurs(targets: seq<Url>, u: Url): nat {
    multiset(targets)[u]
  }

  /** There is room for one more redirect to a URL: fewer than ten distinct URLs were redirected
      to, and this one fewer than four times. */
  predicate Allowed(before: seq<Url>, u: Url) {
    |Distinct(before)| < MAX_REDIRECTIONS && Occurs(before, u) < MAX_REPEATS
  }

  /** The loop guard decides on the redirects so far: a redirect that could be followed is,
      exactly if there is room for it. */
  lemma FollowedExactly(req: Request, v: Visited, a: Answer, targets: seq<Url>)
    requires Counts(v, targets)
    ensures Follow(req, v, a).Ok? <==> Redirected(req, a).Ok? && Allowed(targets, Redirected(req, a).value.url)
    ensures Redirected(req, a).Ok? && !Allowed(targets, Redirected(req, a).value.url) ==> Follow(req, v, a) == Err(Exhausted)
    ensures Follow(req, v, a).Ok? ==>
              var (next, v') := Follow(req, v, a).value;
              Redirected(req, a) == Ok(next) && Counts(v', targets + [next.url])
  {
    if v.Some? {
      assert |v.value.Keys| == |v.value|;
    } else {
      assert Distinct(targets) == {};
    }
    if Follow(req, v, a).Ok? {
      VisitCounts(v, targets, Redirected(req, a).value.url);
    }
  }

  lemma VisitCounts(v: Visited, targets: seq<Url>, u: Url)
    requires Counts(v, targets)
    ensures Counts(Visit(v, u), targets + [u])
  {
    var v', after := Visit(v, u).value, targets + [u];
    OneMore(targets, u);
    assert v'.Keys == Distinct(after);
    assert u !in targets ==> Occurs(targets, u) == 0;
  }

  /** The requests of a chain nothing limits but what the answers are. */
  function Unlimited(req: Request, answers: seq<Answer>): (r: seq<Request>)
    ensures r != [] && r[0] == req
    decreases |answers|
  {
    if answers == [] || Redirected(req, answers[0]).Err? then [req]
    else [req] + Unlimited(Redirected(req, answers[0]).value, answers[1..])
  }

  /** What a chain was redirected to. */
  function Targets(reqs: seq<Request>): (r: seq<Url>)
    requires reqs != []
    ensures |r| == |reqs| - 1 && forall i :: 0 <= i < |r| ==> r[i] == reqs[i + 1].url
  {
    seq(|reqs| - 1, i requires 0 <= i < |reqs| - 1 => reqs[i + 1].url)
  }

  predicate AllowedNth(before: seq<Url>, targets: seq<Url>, i: nat)
    requires i < |targets|
  {
    Allowed(before + targets[..i], targets[i])
  }

  ghost predicate AllAllowed(before: seq<Url>, targets: seq<Url>, n: nat)
    requires n < |targets|
  {
    forall i :: 0 <= i <= n ==> AllowedNth(before, targets, i)
  }

  // One more target in front.
  lemma AllowedNthNext(before: seq<Url>, targets: seq<Url>, i: nat)
    requires i + 1 < |targets|
    ensures AllowedNth(before, targets, i + 1) <==> AllowedNth(before + [targets[0]], targets[1..], i)
  {
    assert before + targets[..i + 1] == (before + [targets[0]]) + targets[1..][..i];
  }

  lemma AllowedNthFirst(before: seq<Url>, targets: seq<Url>)
    requires targets != []
    ensures AllowedNth(before, targets, 0) <==> Allowed(before, targets[0])
  {
    assert before + targets[..0] == before;
  }

  lemma AllAllowedNext(before: seq<Url>, targets: seq<Url>, n: nat)
    requires n + 1 < |targets|
    ensures AllAllowed(before, targets, n + 1) <==>
            Allowed(before, targets[0]) && AllAllowed(before + [targets[0]], targets[1..], n)
  {
    AllowedNthFirst(before, targets);
    forall i | 0 <= i <= n
      ensures AllowedNth(before, targets, i + 1) <==> AllowedNth(before + [targets[0]], targets[1..], i)
    {
      AllowedNthNext(before, targets, i);
    }
    if Allowed(before, targets[0]) && AllAllowed(before + [targets[0]], targets[1..], n) {
      forall i | 0 <= i <= n + 1
        ensures AllowedNth(before, targets, i)
      {
        if i > 0 {
          assert AllowedNth(before + [targets[0]], targets[1..], i - 1);
        }
      }
    }
  }

  lemma {:induction false} ChainIsPrefix(req: Request, v: Visited, answers: seq<Answer>)
    ensures Chain(req, v, answers) <= Unlimited(req, answers)
    decreases |answers|
  {
    if answers != [] && Follow(req, v, answers[0]).Ok? {
      ChainFollows(req, v, answers);
      var (next, v') := Follow(req, v, answers[0]).value;
      ChainIsPrefix(next, v', answers[1..]);
    }
  }

  lemma {:induction false} ChainGoesBeyond(req: Request, v: Visited, answers: seq<Answer>, before: seq<Url>, n: nat)
    requires Counts(v, before)
    ensures |Chain(req, v, answers)| > n + 1 <==>
            && |Unlimited(req, answers)| > n + 1
            && AllAllowed(before, Targets(Unlimited(req, answers)), n)
    decreases n
  {
    var free := Unlimited(req, answers);
    if answers != [] {
      FollowedExactly(req, v, answers[0], before);
    }
    if |free| > 1 {
      var next := Redirected(req, answers[0]).value;
      var rest := Unlimited(next, answers[1..]);
      assert free == [req] + rest && Targets(free)[0] == next.url && Targets(free)[1..] == Targets(rest);
      assert before + Targets(free)[..0] == before;
      if Allowed(before, next.url) && n > 0 {
        ChainFollows(req, v, answers);
        var v' := Follow(req, v, answers[0]).value.1;
        ChainGoesBeyond(next, v', answers[1..], before + [next.url], n - 1);
        if |free| > n + 1 {
          AllAllowedNext(before, Targets(free), n - 1);
        }
      }
      if !Allowed(before, next.url) && |free| > n + 1 {
        AllowedNthFirst(before, Targets(free));
      }
    }
  }

  lemma OneMore(targets: seq<Url>, u: Url)
    ensures Distinct(targets + [u]) == Distinct(targets) + {u}
    ensures |Distinct(targets)| <= |Distinct(targets + [u])| <= |Distinct(targets)| + 1
    ensures forall x :: Occurs(targets + [u], x) == Occurs(targets, x) + (if x == u then 1 else 0)
  {
    assert forall x :: x in targets + [u] <==> x in targets || x == u;
    assert Distinct(targets + [u]) == Distinct(targets) + {u};
    if u in targets {
      assert Distinct(targets) + {u} == Distinct(targets);
    } else {
      assert (Distinct(targets) + {u}) - {u} == Distinct(targets);
    }
    assert multiset(targets + [u]) == multiset(targets) + multiset{u};
  }

  lemma {:induction false} PrefixGrows(targets: seq<Url>, m: nat, n: nat)
    requires m <= n <= |targets|
    ensures |Distinct(targets[..m])| <= |Distinct(targets[..n])|
    ensures forall u :: Occurs(targets[..m], u) <= Occurs(targets[..n], u)
  {
    if m < n {
      PrefixGrows(targets, m, n - 1);
      OneMore(targets[..n - 1], targets[n - 1]);
      assert targets[..n] == targets[..n - 1] + [targets[n - 1]];
    }
  }

  ghost predicate FewTimes(targets: seq<Url>) {
    forall u :: Occurs(targets, u) <= MAX_REPEATS
  }

  lemma FewAndOneMore(targets: seq<Url>, u: Url)
    requires FewTimes(targets) && Occurs(targets, u) < MAX_REPEATS
    ensures FewTimes(targets + [u])
  {
    OneMore(targets, u);
    var after := targets + [u];
    forall x
      ensures Occurs(after, x) <= MAX_REPEATS
    {
      assert Occurs(targets, x) <= MAX_REPEATS;
    }
  }

  lemma AllowedAt(targets: seq<Url>, n: nat, i: nat)
    requires i <= n < |targets| && AllAllowed([], targets, n)
    ensures Allowed(targets[..i], targets[i])
  {
    assert AllowedNth([], targets, i);
    assert [] + targets[..i] == targets[..i];
  }

  lemma {:induction false} AllowedAreFew(targets: seq<Url>, n: nat, m: nat)
    requires m <= n + 1 <= |targets| && AllAllowed([], targets, n)
    ensures FewTimes(targets[..m])
    decreases m
  {
    if m == 0 {
      assert targets[..0] == [];
    } else {
      AllowedAreFew(targets, n, m - 1);
      AllowedAt(targets, n, m - 1);
      FewAndOneMore(targets[..m - 1], targets[m - 1]);
      assert targets[..m] == targets[..m - 1] + [targets[m - 1]];
    }
  }

  lemma FewIsAllowed(targets: seq<Url>, n: nat, i: nat)
    requires i <= n < |targets| && |Distinct(targets[..n])| < MAX_REDIRECTIONS
    requires Occurs(targets[..n + 1], targets[i]) <= MAX_REPEATS
    ensures Allowed(targets[..i], targets[i])
  {
    PrefixGrows(targets, i, n);
    PrefixGrows(targets, i + 1, n + 1);
    OneMore(targets[..i], targets[i]);
    assert targets[..i + 1] == targets[..i] + [targets[i]];
  }

  lemma FewAreAllowed(targets: seq<Url>, n: nat)
    requires n < |targets| && |Distinct(targets[..n])| < MAX_REDIRECTIONS && FewTimes(targets[..n + 1])
    ensures AllAllowed([], targets, n)
  {
    forall i | 0 <= i <= n
      ensures AllowedNth([], targets, i)
    {
      FewIsAllowed(targets, n, i);
      assert [] + targets[..i] == targets[..i];
    }
  }

  /** When a chain goes beyond `n` redirects: exactly if the answers ask for that many, fewer than
      ten distinct URLs are among the first `n` targets, and none is among them and the next more
      than four times. */
  lemma GoesBeyondExactly(req: Request, answers: seq<Answer>, n: nat)
    ensures |Chain(req, None, answers)| > n + 1 <==>
            && |Unlimited(req, answers)| > n + 1
            && var targets := Targets(Unlimited(req, answers));
            && |Distinct(targets[..n])| < MAX_REDIRECTIONS && FewTimes(targets[..n + 1])
  {
    ChainGoesBeyond(req, None, answers, [], n);
    if |Unlimited(req, answers)| > n + 1 {
      var targets := Targets(Unlimited(req, answers));
      if AllAllowed([], targets, n) {
        AllowedAt(targets, n, n);
        AllowedAreFew(targets, n, n + 1);
      }
      if |Distinct(targets[..n])| < MAX_REDIRECTIONS && FewTimes(targets[..n + 1]) {
        FewAreAllowed(targets, n);
      }
    }
  }

  /** So the documented cap of ten redirects is kept exactly if the answers ask for no more, or
      the first ten targets are all different, or one of the first eleven comes a fifth time. */
  lemma CapIsKeptExactly(req: Request, answers: seq<Answer>)
    ensures |Targets(Chain(req, None, answers))| <= MAX_REDIRECTIONS <==>
            var targets := Targets(Unlimited(req, answers));
            || |targets| <= MAX_REDIRECTIONS
            || (forall i, j :: 0 <= i < j < MAX_REDIRECTIONS ==> targets[i] != targets[j])
            || !FewTimes(targets[..MAX_REDIRECTIONS + 1])
  {
    GoesBeyondExactly(req, answers, MAX_REDIRECTIONS);
    var targets := Targets(Unlimited(req, answers));
    if |targets| > MAX_REDIRECTIONS {
      var first := targets[..MAX_REDIRECTIONS];
      DistinctCount(first);
      assert (forall i, j :: 0 <= i < j < MAX_REDIRECTIONS ==> targets[i] != targets[j]) <==> NoRepeats(first) by {
        assert forall i :: 0 <= i < MAX_REDIRECTIONS ==> first[i] == targets[i];
      }
    }
  }

  ghost predicate NoRepeats(targets: seq<Url>) {
    forall i, j :: 0 <= i < j < |targets| ==> targets[i] != targets[j]
  }

  lemma {:induction false} DistinctCount(targets: seq<Url>)
    ensures |Distinct(targets)| <= |targets|
    ensures |Distinct(targets)| == |targets| <==> NoRepeats(targets)
  {
    if targets != [] {
      var n := |targets| - 1;
      var init, last := targets[..n], targets[n];
      DistinctCount(init);
      OneMore(init, last);
      assert targets == init + [last];
      if last in init {
        var i :| 0 <= i < n && init[i] == last;
        assert targets[i] == targets[n];
      } else {
        assert forall i :: 0 <= i < n ==> init[i] in init;
        assert NoRepeats(targets) <==> NoRepeats(init) by {
          assert forall i :: 0 <= i < n ==> init[i] == targets[i];
        }
      }
    }
  }

  /** Over every chain: it was redirected to ten distinct URLs at most, to none of them more than
      four times, and if to none twice then ten times at most. */
  lemma TargetsWithinLimits(req: Request, answers: seq<Answer>)
    ensures var targets := Targets(Chain(req, None, answers));
            && |Distinct(targets)| <= MAX_REDIRECTIONS && FewTimes(targets)
            && (NoRepeats(targets) ==> |targets| <= MAX_REDIRECTIONS)
  {
    var targets := Targets(Chain(req, None, answers));
    if targets != [] {
      ChainTargetsFit(req, answers, |targets| - 1);
    }
    WithinLimits(targets);
  }

  lemma WithinLimits(targets: seq<Url>)
    requires targets != [] ==> |Distinct(targets[..|targets| - 1])| < MAX_REDIRECTIONS
    ensures |Distinct(targets)| <= MAX_REDIRECTIONS
    ensures NoRepeats(targets) ==> |targets| <= MAX_REDIRECTIONS
  {
    DistinctCount(targets);
    if targets != [] {
      OneLess(targets);
    }
  }

  lemma OneLess(targets: seq<Url>)
    requires targets != []
    ensures |Distinct(targets)| <= |Distinct(targets[..|targets| - 1])| + 1
  {
    var n := |targets| - 1;
    OneMore(targets[..n], targets[n]);
    assert targets[..n] + [targets[n]] == targets;
  }

  lemma ChainTargetsFit(req: Request, answers: seq<Answer>, n: nat)
    requires |Chain(req, None, answers)| == n + 2
    ensures var targets := Targets(Chain(req, None, answers));
            |Distinct(targets[..n])| < MAX_REDIRECTIONS && FewTimes(targets)
  {
    var targets, free := Targets(Chain(req, None, answers)), Targets(Unlimited(req, answers));
    GoesBeyondExactly(req, answers, n);
    PrefixTargets(req, answers);
    assert free[..n + 1] == targets;
    assert free[..n] == free[..n + 1][..n] == targets[..n];
  }

  lemma PrefixTargets(req: Request, answers: seq<Answer>)
    ensures Targets(Chain(req, None, answers)) <= Targets(Unlimited(req, answers))
  {
    ChainIsPrefix(req, None, answers);
  }

  lemma {:induction false} FewRepeats(m: multiset<Url>, distinct: set<Url>)
    requires forall u :: m[u] > 0 ==> u in distinct
    requires forall u :: m[u] <= MAX_REPEATS
    ensures |m| <= MAX_REPEATS * |distinct|
  {
    if distinct == {} {
      assert m == multiset{};
    } else {
      var u :| u in distinct;
      FewRepeats(m[u := 0], distinct - {u});
      assert |m| == |m[u := 0]| + m[u];
    }
  }

  const MAX_HOPS := MAX_REPEATS * (MAX_REDIRECTIONS - 1) + 1

  /** Every chain ends, whatever the servers answer: after 37 redirects at the latest. */
  lemma ChainsEnd(req: Request, answers: seq<Answer>)
    ensures |Chain(req, None, answers)| <= MAX_HOPS + 1
    ensures MAX_HOPS == 37
  {
    GoesBeyondExactly(req, answers, MAX_HOPS);
    if |Unlimited(req, answers)| > MAX_HOPS + 1 {
      var targets := Targets(Unlimited(req, answers));
      TooManyToFit(targets[..MAX_HOPS]);
      PrefixGrows(targets, MAX_HOPS, MAX_HOPS + 1);
    }
  }

  // As many targets as that are either ten distinct ones or one of them five times.
  lemma TooManyToFit(targets: seq<Url>)
    requires |targets| == MAX_HOPS
    ensures |Distinct(targets)| < MAX_REDIRECTIONS ==> !FewTimes(targets)
  {
    if FewTimes(targets) {
      forall u
        ensures multiset(targets)[u] > 0 ==> u in Distinct(targets)
        ensures multiset(targets)[u] <= MAX_REPEATS
      {
        assert Occurs(targets, u) <= MAX_REPEATS;
      }
      FewRepeats(multiset(targets), Distinct(targets));
      assert |multiset(targets)| == |targets|;
    }
  }

  // ---- The bound is met ----------------------------------------------------------------------------

  // The targets of a chain that wears each URL out before it goes to the next.
  function Target(n: nat): Url {
    Url("https", "h", NoPort, Tail(n))
  }

  function Tail(n: nat): (r: string)
    ensures |r| == n
  {
    if n == 0 then "" else Tail(n - 1) + "/"
  }

  function Answers(from: nat, n: nat): (r: seq<Answer>)
    ensures |r| == n
    decreases n
  {
    if n == 0 then [] else [Answer(302, Some(Absolute(Target(from / MAX_REPEATS))))] + Answers(from + 1, n - 1)
  }

  /** What the chain has counted when `q` URLs are worn out and the next was visited `r` times. */
  ghost predicate WornOut(v: Visited, q: nat, r: nat) {
    && r < MAX_REPEATS && (v.None? <==> q == 0 && r == 0)
    && (v.Some? ==> |v.value.Keys| == q + (if r > 0 then 1 else 0))
    && (v.Some? ==> forall u :: u in v.value ==> v.value[u] > 0 && |u.rest| <= q)
    && Times(v, Target(q)) == r
  }

  lemma NextWornOut(v: Visited, q: nat, r: nat)
    requires WornOut(v, q, r)
    ensures if r + 1 < MAX_REPEATS then WornOut(Visit(v, Target(q)), q, r + 1) else WornOut(Visit(v, Target(q)), q + 1, 0)
  {
    var v', u := Visit(v, Target(q)), Target(q);
    assert |Target(q + 1).rest| == q + 1;
    if v.Some? {
      assert v'.value.Keys == v.value.Keys + {u};
      assert u in v.value <==> r > 0;
    } else {
      assert v'.value.Keys == {u};
    }
  }

  lemma FollowsTarget(req: Request, v: Visited, q: nat, r: nat)
    requires WornOut(v, q, r) && q + (if r > 0 then 1 else 0) < MAX_REDIRECTIONS
    requires req.verb.Get? && OriginOf(req.url).Some?
    ensures var f := Follow(req, v, Answer(302, Some(Absolute(Target(q)))));
            f.Ok? && f.value.1 == Visit(v, Target(q)) && f.value.0.verb.Get? && f.value.0.url == Target(q)
  {
    assert v.Some? ==> |v.value| == |v.value.Keys|;
    assert OriginOf(Target(q)).Some?;
  }

  lemma AnswersHead(q: nat, r: nat, i: nat, n: nat)
    requires n > 0 && r < MAX_REPEATS && i == MAX_REPEATS * q + r
    ensures Answers(i, n)[0] == Answer(302, Some(Absolute(Target(q))))
    ensures Answers(i, n)[1..] == Answers(i + 1, n - 1)
  {
    assert i / MAX_REPEATS == q;
  }

  lemma GoOnce(req: Request, v: Visited, q: nat, r: nat, i: nat, n: nat)
    returns (next: Request, v': Visited, q': nat, r': nat)
    requires WornOut(v, q, r) && req.verb.Get? && OriginOf(req.url).Some?
    requires i == MAX_REPEATS * q + r && i + n == MAX_HOPS && n > 0
    ensures |Chain(req, v, Answers(i, n))| == 1 + |Chain(next, v', Answers(i + 1, n - 1))|
    ensures WornOut(v', q', r') && i + 1 == MAX_REPEATS * q' + r'
    ensures next.verb.Get? && OriginOf(next.url).Some?
  {
    AnswersHead(q, r, i, n);
    FollowsTarget(req, v, q, r);
    ChainFollows(req, v, Answers(i, n));
    NextWornOut(v, q, r);
    next, v' := Follow(req, v, Answers(i, n)[0]).value.0, Visit(v, Target(q));
    q', r' := if r + 1 < MAX_REPEATS then q else q + 1, if r + 1 < MAX_REPEATS then r + 1 else 0;
  }

  lemma {:induction false} ChainGoesOn(req: Request, v: Visited, q: nat, r: nat, i: nat, n: nat)
    requires WornOut(v, q, r) && req.verb.Get? && OriginOf(req.url).Some?
    requires i == MAX_REPEATS * q + r && i + n == MAX_HOPS
    ensures |Chain(req, v, Answers(i, n))| == n + 1
    decreases n
  {
    if n > 0 {
      var next, v', q', r' := GoOnce(req, v, q, r, i, n);
      ChainGoesOn(next, v', q', r', i + 1, n - 1);
    }
  }

  /** And there are servers that keep a GET going that long: the limit of ten is one on the
      distinct URLs, and not, as documented, on the redirects. */
  lemma LongChainsExist(req: Request)
    requires req.verb.Get? && OriginOf(req.url).Some?
    ensures |Chain(req, None, Answers(0, MAX_HOPS))| == MAX_HOPS + 1
  {
    ChainGoesOn(req, None, 0, 0, 0, MAX_HOPS);
  }

  // ---- The handler ------------------------------------------------------------------------------------

  class RequestObject {
    const url: Url
    const verb: Method
    var headers: Headers

    constructor (url: Url, verb: Method, headers: Headers)
      ensures Value() == Request(url, verb, headers)
    {
      this.url, this.verb, this.headers := url, verb, headers;
    }

    function Value(): Request
      reads this
    {
      Request(url, verb, headers)
    }

    // del self.headers[key], for every key that spells Authorization
    method StripAuthorization()
      modifies this
      ensures Value() == old(Value()).(headers := WithoutAuthorization(old(headers)))
    {
      var keys := headers.Keys;
      while keys != {}
        invariant keys <= headers.Keys
        invariant forall k :: k in headers <==> k in old(headers) && (k in keys || !IsAuthorization(k))
        invariant forall k :: k in headers ==> headers[k] == old(headers)[k]
        decreases |keys|
      {
        var key :| key in keys;
        keys := keys - {key};
        if IsAuthorization(key) {
          headers := headers - {key};
        }
      }
    }
  }

  /** redirect_request: a new request object, the old one as it was. */
  method RedirectHandler(req: RequestObject, code: nat, newUrl: Url) returns (r: Result<RequestObject, Halt>)
    ensures match RedirectRequest(req.Value(), code, newUrl)
            case Err(halt) => r == Err(halt)
            case Ok(value) => r.Ok? && fresh(r.value) && r.value.Value() == value
  {
    if !Redirectable(code, req.verb) {
      return Err(IsResponse);
    }
    var next := new RequestObject(newUrl, Verb(req.verb), WithoutContent(req.headers));
    if OriginOf(req.url).None? || OriginOf(newUrl).None? {
      return Err(ValueError);
    }
    if OriginOf(req.url) != OriginOf(newUrl) {
      next.StripAuthorization();
    }
    return Ok(next);
  }
}
