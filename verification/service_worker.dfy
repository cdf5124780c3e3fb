/**
 * The decision rules of the service worker (sw.js): the security-header merge
 * applied to every response it produces itself, the choice of caches evicted
 * on activation, and the routing of an intercepted fetch between the cache,
 * the network and the offline page. The Cache API, `fetch` and promises are
 * replaced by their results, passed in as parameters.
 */
module ServiceWorker {
  import opened Wrappers
  import opened JsText

  const CacheVersion := "v1.0.0"
  const CacheName := "obsidian-digital-" + CacheVersion

  // ---------------------------------------------------------------- headers

  /** A `Headers` object: names are stored lower-cased, since `Headers` compares them
      without regard to ASCII case. */
  type Headers = map<string, string>

  datatype Header = Header(name: string, value: string)

  /** `SECURITY_HEADERS`, in the order `Object.entries` visits it. */
  const SecurityHeaders: seq<Header> := [
    Header("Strict-Transport-Security", "max-age=31536000; includeSubDomains; preload"),
    Header("X-Frame-Options", "DENY"),
    Header("X-Content-Type-Options", "nosniff"),
    Header("Referrer-Policy", "strict-origin-when-cross-origin"),
    Header("Permissions-Policy", "geolocation=(), microphone=(), camera=()"),
    Header("Cross-Origin-Opener-Policy", "same-origin"),
    Header("Cross-Origin-Embedder-Policy", "require-corp"),
    Header("Cross-Origin-Resource-Policy", "same-origin")
  ]

  /** The key `Headers` files a name under. */
  function HeaderKey(name: string): string {
    ToLowerAscii(name)
  }

  function NamesOf(hs: seq<Header>): set<string> {
    set i | 0 <= i < |hs| :: HeaderKey(hs[i].name)
  }

  /** No later entry of `hs` writes the same header as entry `i`. */
  predicate LastWriter(hs: seq<Header>, i: nat)
    requires i < |hs|
  {
    forall j :: i < j < |hs| ==> HeaderKey(hs[j].name) != HeaderKey(hs[i].name)
  }

  /** `headers.set(name, value)` for each entry in turn. The headers written are added or
      replaced and every other header is kept as it was. */
  function SetAll(h: Headers, hs: seq<Header>): (r: Headers)
    ensures r.Keys == h.Keys + NamesOf(hs)
    ensures forall k :: k in h && k !in NamesOf(hs) ==> r[k] == h[k]
    decreases |hs|
  {
    if hs == [] then h
    else
      NamesOfCons(hs);
      SetAll(h[HeaderKey(hs[0].name) := hs[0].value], hs[1..])
  }

  /** The last write to a name wins. */
  lemma {:induction false} LastWriteWins(h: Headers, hs: seq<Header>, i: nat)
    requires i < |hs| && LastWriter(hs, i)
    ensures HeaderKey(hs[i].name) in SetAll(h, hs) && SetAll(h, hs)[HeaderKey(hs[i].name)] == hs[i].value
    decreases i
  {
    var k := HeaderKey(hs[0].name);
    var g := h[k := hs[0].value];
    assert SetAll(h, hs) == SetAll(g, hs[1..]);
    NamesOfCons(hs);
    if i == 0 {
      forall n | n in NamesOf(hs[1..]) ensures n != k {
        var j :| 0 <= j < |hs[1..]| && n == HeaderKey(hs[1..][j].name);
        assert hs[1..][j] == hs[j + 1];
      }
    } else {
      forall j | i - 1 < j < |hs[1..]| ensures HeaderKey(hs[1..][j].name) != HeaderKey(hs[1..][i - 1].name) {
        assert hs[1..][j] == hs[j + 1];
      }
      LastWriteWins(g, hs[1..], i - 1);
    }
  }

  lemma NamesOfCons(hs: seq<Header>)
    requires hs != []
    ensures NamesOf(hs) == {HeaderKey(hs[0].name)} + NamesOf(hs[1..])
  {
    forall k | k in NamesOf(hs) ensures k in {HeaderKey(hs[0].name)} + NamesOf(hs[1..]) {
      var i :| 0 <= i < |hs| && k == HeaderKey(hs[i].name);
      if i > 0 {
        assert hs[i] == hs[1..][i - 1];
      }
    }
    forall k | k in NamesOf(hs[1..]) ensures k in NamesOf(hs) {
      var i :| 0 <= i < |hs[1..]| && k == HeaderKey(hs[1..][i].name);
      assert hs[1..][i] == hs[i + 1];
    }
  }

  /** `SetAll` only reads the headers it does not write: two maps that agree outside the
      written names end up equal. */
  lemma {:induction false} SetAllForgetsOverwritten(g1: Headers, g2: Headers, hs: seq<Header>)
    requires g1.Keys + NamesOf(hs) == g2.Keys + NamesOf(hs)
    requires forall k :: k in g1 && k !in NamesOf(hs) ==> k in g2 && g1[k] == g2[k]
    ensures SetAll(g1, hs) == SetAll(g2, hs)
    decreases |hs|
  {
    if hs == [] {
      assert g1.Keys == g2.Keys;
    } else {
      var k, v := HeaderKey(hs[0].name), hs[0].value;
      NamesOfCons(hs);
      var rest := NamesOf(hs[1..]);
      assert g1[k := v].Keys + rest == g2[k := v].Keys + rest;
      SetAllForgetsOverwritten(g1[k := v], g2[k := v], hs[1..]);
    }
  }

  /** Setting the same headers twice is the same as setting them once. */
  lemma SetAllIsIdempotent(h: Headers, hs: seq<Header>)
    ensures SetAll(SetAll(h, hs), hs) == SetAll(h, hs)
  {
    SetAllForgetsOverwritten(SetAll(h, hs), h, hs);
  }

  lemma KeysDifferInLength(a: string, b: string)
    requires |a| != |b|
    ensures HeaderKey(a) != HeaderKey(b)
  {
  }

  lemma KeysDifferAt(a: string, b: string, k: nat)
    requires k < |a| && k < |b| && LowerChar(a[k]) != LowerChar(b[k])
    ensures HeaderKey(a) != HeaderKey(b)
  {
    assert HeaderKey(a)[k] != HeaderKey(b)[k];
  }

  /** An entry whose name differs in length from every later one is written last. */
  lemma DistinctByLength(hs: seq<Header>, i: nat)
    requires i < |hs|
    requires forall j :: i < j < |hs| ==> |hs[j].name| != |hs[i].name|
    ensures LastWriter(hs, i)
  {
    forall j | i < j < |hs| ensures HeaderKey(hs[j].name) != HeaderKey(hs[i].name) {
      KeysDifferInLength(hs[j].name, hs[i].name);
    }
  }

  lemma EarlyHeadersAreLastWriters()
    ensures LastWriter(SecurityHeaders, 0) && LastWriter(SecurityHeaders, 2) && LastWriter(SecurityHeaders, 3)
  {
    DistinctByLength(SecurityHeaders, 0);
    DistinctByLength(SecurityHeaders, 2);
    DistinctByLength(SecurityHeaders, 3);
  }

  lemma LateHeadersAreLastWriters()
    ensures LastWriter(SecurityHeaders, 4) && LastWriter(SecurityHeaders, 5) && LastWriter(SecurityHeaders, 7)
  {
    DistinctByLength(SecurityHeaders, 4);
    DistinctByLength(SecurityHeaders, 5);
    DistinctByLength(SecurityHeaders, 7);
  }

  /** X-Frame-Options and Referrer-Policy share a length but not a first letter. */
  lemma FrameOptionsIsLastWriter()
    ensures LastWriter(SecurityHeaders, 1)
  {
    var hs := SecurityHeaders;
    KeysDifferAt(hs[3].name, hs[1].name, 0);
    forall j | 1 < j < |hs| && j != 3 ensures HeaderKey(hs[j].name) != HeaderKey(hs[1].name) {
      KeysDifferInLength(hs[j].name, hs[1].name);
    }
  }

  /** Cross-Origin-Embedder-Policy and Cross-Origin-Resource-Policy part at their fourteenth letter. */
  lemma EmbedderPolicyIsLastWriter()
    ensures LastWriter(SecurityHeaders, 6)
  {
    KeysDifferAt(SecurityHeaders[7].name, SecurityHeaders[6].name, 13);
  }

  /** The eight security header names stay distinct once lower-cased, so each is written
      exactly once. */
  lemma SecurityHeadersAreDistinct()
    ensures forall i :: 0 <= i < |SecurityHeaders| ==> LastWriter(SecurityHeaders, i)
  {
    EarlyHeadersAreLastWriters();
    LateHeadersAreLastWriters();
    FrameOptionsIsLastWriter();
    EmbedderPolicyIsLastWriter();
  }

  lemma SecuredBySetAll(h: Headers)
    ensures Secured(SetAll(h, SecurityHeaders))
  {
    var r := SetAll(h, SecurityHeaders);
    SecurityHeadersAreDistinct();
    forall i | 0 <= i < |SecurityHeaders|
      ensures HeaderKey(SecurityHeaders[i].name) in r && r[HeaderKey(SecurityHeaders[i].name)] == SecurityHeaders[i].value
    {
      LastWriteWins(h, SecurityHeaders, i);
    }
  }

  datatype ResponseType = Basic | Cors | Default | Error | Opaque | OpaqueRedirect

  /** The parts of a `Response` the worker reads or passes on. */
  datatype Response = Response(status: int, statusText: string, kind: ResponseType, headers: Headers, body: seq<bv8>)

  predicate Secured(h: Headers) {
    forall i :: 0 <= i < |SecurityHeaders| ==>
      (HeaderKey(SecurityHeaders[i].name) in h && h[HeaderKey(SecurityHeaders[i].name)] == SecurityHeaders[i].value)
  }

  /** What the client sees of `AddSecurityHeaders(resp)`: the same status, status text and
      body, type "default", and the eight security headers in place. */
  predicate SecuredCopy(out: Response, resp: Response) {
    && out.status == resp.status && out.statusText == resp.statusText && out.body == resp.body
    && out.kind == Default && Secured(out.headers)
  }

  /** `addSecurityHeaders`: a new `Response` (of type "default") with the same body, status
      and status text, the original headers, and the eight security headers set over them. */
  function AddSecurityHeaders(resp: Response): (r: Response)
    ensures r.status == resp.status && r.statusText == resp.statusText && r.body == resp.body
    ensures r.kind == Default
    ensures Secured(r.headers)
    ensures r.headers.Keys == resp.headers.Keys + NamesOf(SecurityHeaders)
    ensures forall k :: k in resp.headers && k !in NamesOf(SecurityHeaders) ==> r.headers[k] == resp.headers[k]
  {
    SecuredBySetAll(resp.headers);
    Response(resp.status, resp.statusText, Default, SetAll(resp.headers, SecurityHeaders), resp.body)
  }

  lemma AddSecurityHeadersIsIdempotent(resp: Response)
    ensures AddSecurityHeaders(AddSecurityHeaders(resp)) == AddSecurityHeaders(resp)
  {
    SetAllIsIdempotent(resp.headers, SecurityHeaders);
  }

  // ---------------------------------------------------------------- activation

  /** The caches the activate handler deletes: every one not named `CacheName`. */
  function StaleCaches(names: set<string>): (r: set<string>)
    ensures r <= names
    ensures CacheName !in r
    ensures forall n :: n in names && n != CacheName ==> n in r
  {
    set n | n in names && n != CacheName
  }

  /** After activation at most the current cache is left, and it is left if it was there. */
  lemma ActivationKeepsOnlyCurrent(names: set<string>)
    ensures names - StaleCaches(names) <= {CacheName}
    ensures CacheName in names <==> names - StaleCaches(names) == {CacheName}
    ensures StaleCaches(names - StaleCaches(names)) == {}
  {
  }

  // ---------------------------------------------------------------- origins

  /** A serialized http(s) request URL: scheme, host (with its port, if any) and a path
      that starts with "/". */
  datatype Url = Url(scheme: string, host: string, path: string)

  datatype Origin = Origin(scheme: string, host: string)

  predicate WellFormedUrl(u: Url) {
    ':' !in u.scheme && '/' !in u.host && |u.path| > 0 && u.path[0] == '/'
  }

  predicate WellFormedOrigin(o: Origin) {
    ':' !in o.scheme && '/' !in o.host
  }

  function Href(u: Url): string {
    u.scheme + "://" + u.host + u.path
  }

  /** `location.origin`. */
  function Serialize(o: Origin): string {
    o.scheme + "://" + o.host
  }

  predicate SameOrigin(u: Url, o: Origin) {
    u.scheme == o.scheme && u.host == o.host
  }

  /** The filter as written: the URL merely starts with the origin's text. */
  predicate StartsWithOrigin(u: Url, o: Origin) {
    StartsWith(Href(u), Serialize(o))
  }

  /** The filter as intended: the URL starts with the origin followed by the "/" that
      begins its path. */
  predicate Intercepted(u: Url, o: Origin) {
    StartsWith(Href(u), Serialize(o) + "/")
  }

  /** The written filter lets through every URL of the worker's own origin ... */
  lemma SameOriginPassesWrittenFilter(u: Url, o: Origin)
    requires SameOrigin(u, o)
    ensures StartsWithOrigin(u, o)
  {
    assert Href(u) == Serialize(o) + u.path;
  }

  /** ... but also URLs of other hosts whose name extends the origin's host name. */
  lemma WrittenFilterAdmitsOtherOrigin()
    ensures var o := Origin("https", "bank.com");
            var u := Url("https", "bank.com.evil", "/");
            WellFormedOrigin(o) && WellFormedUrl(u) && StartsWithOrigin(u, o) && !SameOrigin(u, o)
  {
    var o := Origin("https", "bank.com");
    var u := Url("https", "bank.com.evil", "/");
    assert Href(u) == Serialize(o) + ".evil/";
  }

  /** The first `c` at or after `from` is the one right after a run without `c`. */
  lemma FirstAfter(x: string, c: char, from: nat, a: string)
    requires from + |a| < |x| && x[from..from + |a|] == a && c !in a && x[from + |a|] == c
    ensures IndexOf(x, c, from) == from + |a|
  {
    assert forall i :: from <= i < from + |a| ==> x[i] == a[i - from];
  }

  /** The intended filter accepts exactly the URLs of the worker's origin. */
  lemma InterceptedIffSameOrigin(u: Url, o: Origin)
    requires WellFormedUrl(u) && WellFormedOrigin(o)
    ensures Intercepted(u, o) <==> SameOrigin(u, o)
  {
    if SameOrigin(u, o) {
      var x, y := Href(u), Serialize(o) + "/";
      assert x == Serialize(o) + u.path;
      assert x[..|y|] == y;
    }
    if Intercepted(u, o) {
      InterceptedSameScheme(u, o);
      InterceptedSameHost(u, o);
    }
  }

  lemma InterceptedSameScheme(u: Url, o: Origin)
    requires WellFormedUrl(u) && WellFormedOrigin(o) && Intercepted(u, o)
    ensures u.scheme == o.scheme
  {
    var x, y := Href(u), Serialize(o) + "/";
    var m, n := |u.scheme|, |o.scheme|;
    assert x[..m] == u.scheme && x[m] == ':';
    assert y[..n] == o.scheme && y[n] == ':';
    assert x[..|y|] == y;
    assert x[..n] == y[..n] && x[n] == y[n];
    FirstAfter(x, ':', 0, u.scheme);
    FirstAfter(x, ':', 0, o.scheme);
  }

  lemma InterceptedSameHost(u: Url, o: Origin)
    requires WellFormedUrl(u) && WellFormedOrigin(o) && Intercepted(u, o) && u.scheme == o.scheme
    ensures u.host == o.host
  {
    var x, y := Href(u), Serialize(o) + "/";
    var start := |o.scheme| + 3;
    var a, b := start + |u.host|, start + |o.host|;
    assert x == (u.scheme + "://") + u.host + u.path;
    assert x[start..a] == u.host && x[a] == '/';
    assert y == (o.scheme + "://") + o.host + "/";
    assert y[start..b] == o.host && y[b] == '/';
    assert x[..|y|] == y;
    assert x[start..b] == x[..|y|][start..b] && x[b] == y[b];
    FirstAfter(x, '/', start, u.host);
    FirstAfter(x, '/', start, o.host);
  }

  // ---------------------------------------------------------------- fetch routing

  /** A request as the handler sees it: `methodName` is `request.method`, upper case. */
  datatype Request = Request(methodName: string, url: Url, destination: string)

  /** What `fetch` settled with: a response (the handler also copes with none), or a rejection. */
  datatype NetworkResult = Fetched(response: Option<Response>) | NetworkFailure

  /** How the fetch event ends: not intercepted (the browser fetches as usual), answered
      with a response as it is (None when `caches.match` found no offline page), answered
      with `addSecurityHeaders(base)`, or rejected. */
  datatype Reply = PassThrough | Respond(response: Option<Response>) | RespondSecured(base: Response) | Rethrow

  /** The response the page receives for a reply that answers it. */
  function Answer(reply: Reply): (r: Option<Response>)
    requires reply.Respond? || reply.RespondSecured?
    ensures reply.Respond? ==> r == reply.response
    ensures reply.RespondSecured? ==> r.Some? && SecuredCopy(r.value, reply.base)
  {
    if reply.Respond? then reply.response else Some(AddSecurityHeaders(reply.base))
  }

  /** `stored` is the raw response put into `CacheName`, if any. */
  datatype FetchOutcome = FetchOutcome(reply: Reply, usedNetwork: bool, stored: Option<Response>)

  /** `response.status !== 200 || response.type !== 'basic'` negated. */
  predicate Cacheable(resp: Response) {
    resp.status == 200 && resp.kind == Basic
  }

  /** The Cache API keys entries by GET requests: `caches.match` finds nothing for another
      method, and `cache.put` rejects one. */
  predicate CacheableMethod(req: Request) {
    req.methodName == "GET"
  }

  /** The `respondWith` chain of the fetch handler, once the request is intercepted.
      `cached` is the entry the caches hold for the request's URL (found by `caches.match`
      only for a GET request), `network` what `fetch(request)` settled with (consulted only
      on a miss), and `offline` what `caches.match('/offline.html')` found. A rejected
      `cache.put` is not handled and does not change the response. */
  function Route(req: Request, cached: Option<Response>, network: NetworkResult, offline: Option<Response>): (r: FetchOutcome)
    ensures r.reply != PassThrough
    ensures CacheableMethod(req) && cached.Some? ==> r == FetchOutcome(RespondSecured(cached.value), false, None)
    ensures r.usedNetwork <==> !(CacheableMethod(req) && cached.Some?)
    ensures r.usedNetwork && network.Fetched? && network.response.Some? && Cacheable(network.response.value) ==>
              r.reply == RespondSecured(network.response.value)
    ensures r.usedNetwork && network.Fetched? && !(network.response.Some? && Cacheable(network.response.value)) ==>
              r.reply == Respond(network.response)
    ensures r.stored.Some? <==> r.usedNetwork && CacheableMethod(req) && network.Fetched?
                                 && network.response.Some? && Cacheable(network.response.value)
    ensures r.stored.Some? ==> r.stored == network.response
    ensures r.reply == Rethrow <==> r.usedNetwork && network.NetworkFailure? && req.destination != "document"
  {
    if CacheableMethod(req) && cached.Some? then FetchOutcome(RespondSecured(cached.value), false, None)
    else match network
      case Fetched(resp) =>
        if resp.None? || !Cacheable(resp.value) then FetchOutcome(Respond(resp), true, None)
        else
          var stored := if CacheableMethod(req) then resp else None;
          FetchOutcome(RespondSecured(resp.value), true, stored)
      case NetworkFailure =>
        if req.destination == "document" then FetchOutcome(Respond(offline), true, None)
        else FetchOutcome(Rethrow, true, None)
  }

  /** The fetch handler as written: the text-prefix filter, then the routing. */
  function HandleFetch(req: Request, origin: Origin, cached: Option<Response>, network: NetworkResult, offline: Option<Response>): (r: FetchOutcome)
    ensures r.reply == PassThrough <==> !StartsWithOrigin(req.url, origin)
    ensures !StartsWithOrigin(req.url, origin) ==> r == FetchOutcome(PassThrough, false, None)
    ensures StartsWithOrigin(req.url, origin) ==> r == Route(req, cached, network, offline)
  {
    if !StartsWithOrigin(req.url, origin) then FetchOutcome(PassThrough, false, None)
    else Route(req, cached, network, offline)
  }

  /** The fetch handler with the filter corrected to the worker's own origin. */
  function HandleSameOriginFetch(req: Request, origin: Origin, cached: Option<Response>, network: NetworkResult, offline: Option<Response>): (r: FetchOutcome)
    ensures r.reply == PassThrough <==> !Intercepted(req.url, origin)
    ensures !Intercepted(req.url, origin) ==> r == FetchOutcome(PassThrough, false, None)
    ensures Intercepted(req.url, origin) ==> r == Route(req, cached, network, offline)
  {
    if !Intercepted(req.url, origin) then FetchOutcome(PassThrough, false, None)
    else Route(req, cached, network, offline)
  }

  /** The corrected filter is stricter than the written one. */
  lemma InterceptedPassesWrittenFilter(u: Url, o: Origin)
    requires Intercepted(u, o)
    ensures StartsWithOrigin(u, o)
  {
    var x, y := Href(u), Serialize(o);
    assert x[..|y|] == x[..|y + "/"|][..|y|];
  }

  /** The corrected handler intercepts a well-formed request exactly when it is of the
      worker's origin. */
  lemma SameOriginHandlerIntercepts(req: Request, origin: Origin, cached: Option<Response>, network: NetworkResult, offline: Option<Response>)
    requires WellFormedUrl(req.url) && WellFormedOrigin(origin)
    ensures HandleSameOriginFetch(req, origin, cached, network, offline).reply != PassThrough <==> SameOrigin(req.url, origin)
  {
    InterceptedIffSameOrigin(req.url, origin);
  }

  /** The two handlers differ exactly on the requests the written filter lets through and
      the corrected one does not. */
  lemma HandlersDifferOnlyOnLookalikes(req: Request, origin: Origin, cached: Option<Response>, network: NetworkResult, offline: Option<Response>)
    ensures HandleFetch(req, origin, cached, network, offline) != HandleSameOriginFetch(req, origin, cached, network, offline)
            <==> StartsWithOrigin(req.url, origin) && !Intercepted(req.url, origin)
  {
    if Intercepted(req.url, origin) {
      InterceptedPassesWrittenFilter(req.url, origin);
    }
  }

  /** On well-formed requests of the worker's own origin the two handlers agree. */
  lemma HandlersAgreeOnSameOrigin(req: Request, origin: Origin, cached: Option<Response>, network: NetworkResult, offline: Option<Response>)
    requires WellFormedUrl(req.url) && WellFormedOrigin(origin) && SameOrigin(req.url, origin)
    ensures HandleFetch(req, origin, cached, network, offline) == HandleSameOriginFetch(req, origin, cached, network, offline)
  {
    InterceptedIffSameOrigin(req.url, origin);
    HandlersDifferOnlyOnLookalikes(req, origin, cached, network, offline);
  }

  /** The handler as written intercepts a request for another host: the worker fetches it
      itself and answers for it, where the corrected handler leaves it to the browser. */
  lemma WrittenHandlerInterceptsOtherOrigin(network: NetworkResult)
    ensures var o := Origin("https", "bank.com");
            var req := Request("GET", Url("https", "bank.com.evil", "/x.png"), "image");
            && !SameOrigin(req.url, o)
            && HandleFetch(req, o, None, network, None).reply != PassThrough
            && HandleFetch(req, o, None, network, None).usedNetwork
            && HandleSameOriginFetch(req, o, None, network, None).reply == PassThrough
  {
    var o := Origin("https", "bank.com");
    var u := Url("https", "bank.com.evil", "/x.png");
    assert Href(u) == Serialize(o) + ".evil/x.png";
    assert WellFormedUrl(u) && WellFormedOrigin(o);
    InterceptedIffSameOrigin(u, o);
  }

  /** A GET cache hit is answered with exactly `addSecurityHeaders` of the cached response. */
  lemma CacheHitIsSecured(req: Request, hit: Response, network: NetworkResult, offline: Option<Response>)
    requires CacheableMethod(req)
    ensures Answer(Route(req, Some(hit), network, offline).reply) == Some(AddSecurityHeaders(hit))
  {
  }

  /** On a miss, a status-200 basic network response is answered with exactly
      `addSecurityHeaders` of it, whether or not it could be stored. */
  lemma NetworkResponseIsSecured(req: Request, resp: Response, offline: Option<Response>)
    requires Cacheable(resp)
    ensures Answer(Route(req, None, Fetched(Some(resp)), offline).reply) == Some(AddSecurityHeaders(resp))
  {
  }

  /** A GET cache hit is answered the same whatever the network or the offline page would give. */
  lemma CacheHitSkipsNetwork(req: Request, hit: Response, n1: NetworkResult, n2: NetworkResult, o1: Option<Response>, o2: Option<Response>)
    requires CacheableMethod(req)
    ensures Route(req, Some(hit), n1, o1) == Route(req, Some(hit), n2, o2)
    ensures !Route(req, Some(hit), n1, o1).usedNetwork
  {
  }

  /** A request of another method never reaches the cache: what the caches hold for its URL
      makes no difference, and nothing is stored. */
  lemma OtherMethodsBypassCache(req: Request, c1: Option<Response>, c2: Option<Response>, network: NetworkResult, offline: Option<Response>)
    requires !CacheableMethod(req)
    ensures Route(req, c1, network, offline) == Route(req, c2, network, offline)
    ensures Route(req, c1, network, offline).stored.None? && Route(req, c1, network, offline).usedNetwork
  {
  }

  /** A response that is not cacheable goes back exactly as the network gave it. */
  lemma UncacheableIsUntouched(req: Request, resp: Response, offline: Option<Response>)
    requires !Cacheable(resp)
    ensures Route(req, None, Fetched(Some(resp)), offline).reply == Respond(Some(resp))
    ensures Route(req, None, Fetched(Some(resp)), offline).stored == None
  {
  }

  /** Once a cacheable network response to a GET request has been stored, the next request
      for it is answered from the cache with exactly what the network path answered,
      without the network. */
  lemma CachedReplayMatches(req: Request, network: NetworkResult, later: NetworkResult, offline: Option<Response>)
    requires CacheableMethod(req) && network.Fetched? && network.response.Some? && Cacheable(network.response.value)
    ensures var first := Route(req, None, network, offline);
            var replay := Route(req, first.stored, later, offline);
            first.stored.Some? && replay.reply == first.reply && !replay.usedNetwork
  {
  }

  /** On a network failure a page navigation gets the cached offline page as it is, without
      security headers added; any other request fails. */
  lemma OfflineFallback(req: Request, offline: Option<Response>)
    ensures Route(req, None, NetworkFailure, offline).reply
            == if req.destination == "document" then Respond(offline) else Rethrow
  {
  }
}
