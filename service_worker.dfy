/** The offline cache worker (sw.js): precache on install, cache-first fetch
    with write-through of good responses, and cleanup of other caches on
    activate. Each event is one sequential step over the cache storage; the
    network is an input. */
module ServiceWorker {
  import opened Common
  import opened CacheApi

  const CacheName: string := "portfolio-cache-v1"

  const UrlsToCache: seq<string> := [
    "/",
    "/index.html",
    "/css/custom.css",
    "/js/main.js",
    "/images/about-me.png",
    "/images/about-me1.png",
    "/images/bg_1.jpg",
    "/images/Inventory.jpg",
    "/images/loc.png",
    "/images/proj_1.jpg",
    "/images/proj_2.jpg",
    "/images/proj_3.jpg",
    "/images/icons/arcgis.png",
    "/images/icons/excel.png",
    "/images/icons/python.png",
    "/images/icons/qgis.png",
    "/images/icons/terrset.png",
    "https://cdn.jsdelivr.net/npm/bootstrap@5.3.0/dist/css/bootstrap.min.css",
    "https://cdn.jsdelivr.net/npm/bootstrap@5.3.0/dist/js/bootstrap.bundle.min.js",
    "https://unpkg.com/aos@2.3.1/dist/aos.js",
    "https://unpkg.com/aos@2.3.1/dist/aos.css",
    "https://cdnjs.cloudflare.com/ajax/libs/font-awesome/5.15.4/css/all.min.css"
  ]

  // ----- install -----

  /** The install promise always resolves: a failed `addAll` is caught and
      logged, so the event does not fail. */
  datatype InstallOutcome = Precached | PrecacheFailedLogged

  function InstallEffect(st: Store, net: seq<NetResult>, writable: bool): Store {
    AddAllEffect(OpenEffect(st, CacheName), CacheName, UrlsToCache, net, writable)
  }

  method Install(s: CacheStorage, net: seq<NetResult>, writable: bool) returns (outcome: InstallOutcome)
    requires s.Valid() && |net| == |UrlsToCache|
    modifies s
    ensures s.Valid()
    ensures outcome == if AddAllSucceeds(UrlsToCache, net, writable) then Precached else PrecacheFailedLogged
    ensures s.State() == InstallEffect(old(s.State()), net, writable)
  {
    s.Open(CacheName);
    var ok := s.AddAll(CacheName, UrlsToCache, net, writable);
    if ok {
      outcome := Precached;
    } else {
      outcome := PrecacheFailedLogged;
    }
  }

  /** No URL is listed twice (entries of equal length differ at the
      position given). */
  lemma UrlsToCacheDistinct()
    ensures Distinct(UrlsToCache)
  {
    LocalPagesDistinct();
    LocalImagesDistinct();
    RemoteAssetsDistinct();
  }

  lemma LocalPagesDistinct()
    ensures forall i, j :: 0 <= i < 8 && i < j < |UrlsToCache| ==> UrlsToCache[i] != UrlsToCache[j]
  {
    assert UrlsToCache[1][1] != UrlsToCache[3][1];
    assert UrlsToCache[2][1] != UrlsToCache[8][1];
    assert UrlsToCache[5][8] != UrlsToCache[7][8];
    forall i, j | 0 <= i < 8 && i < j < |UrlsToCache| ensures UrlsToCache[i] != UrlsToCache[j] { }
  }

  lemma LocalImagesDistinct()
    ensures forall i, j :: 8 <= i < 17 && i < j < |UrlsToCache| ==> UrlsToCache[i] != UrlsToCache[j]
  {
    assert UrlsToCache[9][13] != UrlsToCache[10][13];
    assert UrlsToCache[9][13] != UrlsToCache[11][13];
    assert UrlsToCache[10][13] != UrlsToCache[11][13];
    assert UrlsToCache[12][14] != UrlsToCache[14][14];
    forall i, j | 8 <= i < 17 && i < j < |UrlsToCache| ensures UrlsToCache[i] != UrlsToCache[j] { }
  }

  lemma RemoteAssetsDistinct()
    ensures forall i, j :: 17 <= i < j < |UrlsToCache| ==> UrlsToCache[i] != UrlsToCache[j]
  {
    forall i, j | 17 <= i < j < |UrlsToCache| ensures UrlsToCache[i] != UrlsToCache[j] { }
  }

  /** After a successful install every listed URL is a key of the current
      cache, holding the response fetched for it. */
  lemma InstallPrecachesEveryUrl(st: Store, net: seq<NetResult>)
    requires |net| == |UrlsToCache| && forall i :: 0 <= i < |net| ==> FetchedOk(net[i])
    ensures var after := InstallEffect(st, net, true);
      && CacheName in after.caches
      && forall i :: 0 <= i < |UrlsToCache| ==>
           UrlsToCache[i] in after.caches[CacheName]
           && after.caches[CacheName][UrlsToCache[i]] == net[i].response
  {
    UrlsToCacheDistinct();
    AddAllStoresEveryUrl(OpenEffect(st, CacheName), CacheName, UrlsToCache, net);
  }

  /** All or nothing: when one fetch fails (or the batch is refused), no
      entry of the batch is stored; the current cache exists, as it was or
      newly created empty, and every other cache is unchanged. */
  lemma InstallAllOrNothing(st: Store, net: seq<NetResult>, writable: bool)
    requires WellFormed(st)
    requires !AddAllSucceeds(UrlsToCache, net, writable)
    ensures var after := InstallEffect(st, net, writable);
      && after.caches == (if CacheName in st.caches then st.caches else st.caches[CacheName := map[]])
      && WellFormed(after)
  {
  }

  /** Whatever the network does, install touches no cache but the current one. */
  lemma InstallTouchesOnlyCurrentCache(st: Store, net: seq<NetResult>, writable: bool)
    ensures var after := InstallEffect(st, net, writable);
      forall n :: n in st.caches && n != CacheName ==> n in after.caches && after.caches[n] == st.caches[n]
  {
  }

  // ----- fetch -----

  /** What `respondWith` is given: a response, or the network failure. */
  datatype Reply = Respond(response: Response) | NetworkFailure

  /** The reply and whether the network was consulted. */
  datatype FetchOutcome = FetchOutcome(reply: Reply, consultedNetwork: bool)

  /** The guard of the write-through: status 200 and type "basic". */
  predicate Cacheable(r: Response) {
    r.status == 200 && r.kind == Basic
  }

  /** The reply of the fetch handler. It does not depend on whether the cache
      write succeeds: the `put` is not chained into the returned promise. */
  function FetchReply(st: Store, req: Request, net: NetResult): FetchOutcome {
    match MatchSpec(st, req)
    case Some(hit) => FetchOutcome(Respond(hit), false)
    case None =>
      match net
      case NetworkError => FetchOutcome(NetworkFailure, true)
      case Delivered(resp) => FetchOutcome(Respond(resp), true)
  }

  /** The cache storage after the fetch handler (the write is applied as part
      of the step; `writable` is whether `put` succeeds in storage). */
  function FetchStore(st: Store, req: Request, net: NetResult, writable: bool): Store {
    if MatchSpec(st, req).Some? || net.NetworkError? || !Cacheable(net.response) then st
    else
      var withCache := OpenEffect(st, CacheName);
      if PutAllowed(req, net.response) && writable then PutEffect(withCache, CacheName, req, net.response)
      else withCache
  }

  method HandleFetch(s: CacheStorage, req: Request, net: NetResult, writable: bool) returns (outcome: FetchOutcome)
    requires s.Valid()
    modifies s
    ensures s.Valid()
    ensures outcome == FetchReply(old(s.State()), req, net)
    ensures s.State() == FetchStore(old(s.State()), req, net, writable)
  {
    var cached := s.Match(req);
    if cached.Some? {
      return FetchOutcome(Respond(cached.value), false);
    }
    match net
    case NetworkError =>
      return FetchOutcome(NetworkFailure, true);
    case Delivered(response) =>
      if response.status != 200 || response.kind != Basic {
        return FetchOutcome(Respond(response), true);
      }
      var responseToCache := response;
      s.Open(CacheName);
      var _ := s.Put(CacheName, req, responseToCache, writable);
      return FetchOutcome(Respond(response), true);
  }

  /** Cache hit: the stored response is returned, the network is not
      consulted and nothing changes. The lookup spans every cache. */
  lemma CacheHitShortCircuits(st: Store, req: Request, net: NetResult, writable: bool, n: string)
    requires WellFormed(st) && req.verb == "GET"
    requires n in st.caches && req.url in st.caches[n]
    ensures var hit := MatchSpec(st, req);
      && hit.Some?
      && FetchReply(st, req, net) == FetchOutcome(Respond(hit.value), false)
      && FetchStore(st, req, net, writable) == st
  {
    var k :| 0 <= k < |st.names| && st.names[k] == n;
  }

  /** Write-through on a miss: a 200 basic response to a GET is returned,
      stored under the request's URL in the current cache, and an identical
      later request is a hit on it without the network. */
  lemma WriteThroughThenHit(st: Store, req: Request, resp: Response, later: NetResult, writable: bool)
    requires WellFormed(st) && req.verb == "GET"
    requires MatchSpec(st, req).None?
    requires Cacheable(resp)
    ensures FetchReply(st, req, Delivered(resp)) == FetchOutcome(Respond(resp), true)
    ensures var after := FetchStore(st, req, Delivered(resp), true);
      && CacheName in after.caches && after.caches[CacheName][req.url] == resp
      && FetchReply(after, req, later) == FetchOutcome(Respond(resp), false)
      && FetchStore(after, req, later, writable) == after
  {
    var after := FetchStore(st, req, Delivered(resp), true);
    var withCache := OpenEffect(st, CacheName);
    assert after == PutEffect(withCache, CacheName, req, resp);
    assert WellFormed(withCache) by {
      if CacheName !in st.caches {
        assert forall i :: 0 <= i < |st.names| ==> st.names[i] != CacheName;
      }
    }
    forall n | n in after.caches && n != CacheName ensures req.url !in after.caches[n] {
      var k :| 0 <= k < |st.names| && st.names[k] == n;
    }
    HitAfterPut(after.caches, after.names, CacheName, req.url, resp);
  }

  /** Pass-through: a non-200 or non-basic response is returned unchanged
      and no cache is modified. */
  lemma UncacheableResponsePassesThrough(st: Store, req: Request, resp: Response, writable: bool)
    requires MatchSpec(st, req).None? && !Cacheable(resp)
    ensures FetchReply(st, req, Delivered(resp)) == FetchOutcome(Respond(resp), true)
    ensures FetchStore(st, req, Delivered(resp), writable) == st
  {
  }

  /** A network failure on a miss is passed on: no response is made up and
      no cache changes. */
  lemma NetworkFailurePropagates(st: Store, req: Request, writable: bool)
    requires MatchSpec(st, req).None?
    ensures FetchReply(st, req, NetworkError) == FetchOutcome(NetworkFailure, true)
    ensures FetchStore(st, req, NetworkError, writable) == st
  {
  }

  /** The handler writes only to the current cache: every other cache keeps
      its entries, and no cache name other than the current one appears. */
  lemma FetchWritesOnlyCurrentCache(st: Store, req: Request, net: NetResult, writable: bool)
    ensures var after := FetchStore(st, req, net, writable);
      && (forall n :: n in st.caches && n != CacheName ==> n in after.caches && after.caches[n] == st.caches[n])
      && (forall n :: n in after.caches ==> n in st.caches || n == CacheName)
  {
  }

  /** A request other than GET never hits and is never stored, though opening
      the current cache for the rejected `put` can create it empty. */
  lemma NonGetNeverCached(st: Store, req: Request, net: NetResult, writable: bool)
    requires req.verb != "GET"
    ensures FetchReply(st, req, net).consultedNetwork
    ensures var after := FetchStore(st, req, net, writable);
      && (forall n :: n in st.caches ==> n in after.caches && after.caches[n] == st.caches[n])
      && (forall n :: n in after.caches && n !in st.caches ==> n == CacheName && after.caches[n] == map[])
  {
  }

  // ----- activate -----

  /** The store with only the caches whose names are in `keep`. */
  function Restrict(st: Store, keep: set<string>): Store {
    Store(Only(st.caches, keep), Keep(st.names, keep))
  }

  /** The caches whose names are in `keep`. */
  function Only(caches: map<string, Cache>, keep: set<string>): (r: map<string, Cache>)
    ensures r.Keys == caches.Keys * keep
    ensures forall n :: n in r ==> r[n] == caches[n]
  {
    map n | n in caches && n in keep :: caches[n]
  }

  /** After activation only the whitelisted cache can remain. */
  function ActivateEffect(st: Store): Store {
    Restrict(st, {CacheName})
  }

  ghost function Pending(ns: seq<string>, i: nat): set<string>
    requires i <= |ns|
  {
    {CacheName} + set k | i <= k < |ns| :: ns[k]
  }

  method Activate(s: CacheStorage)
    requires s.Valid()
    modifies s
    ensures s.Valid()
    ensures s.State() == ActivateEffect(old(s.State()))
  {
    var cacheWhitelist := [CacheName];
    ghost var start := s.State();
    var cacheNames := s.Keys();
    RestrictToAllNames(start);
    var i := 0;
    while i < |cacheNames|
      invariant 0 <= i <= |cacheNames|
      invariant s.Valid() && cacheNames == start.names && WellFormed(start)
      invariant s.State() == Restrict(start, Pending(cacheNames, i))
    {
      ActivateStepMoves(start, i);
      CleanUp(s, cacheWhitelist, cacheNames[i]);
      i := i + 1;
    }
    PendingAtEnd(cacheNames);
  }

  lemma PendingAtEnd(ns: seq<string>)
    ensures Pending(ns, |ns|) == {CacheName}
  {
  }

  /** One turn of the activate loop: `caches.delete` for a name missing
      from the whitelist. */
  method CleanUp(s: CacheStorage, cacheWhitelist: seq<string>, cacheName: string)
    requires s.Valid() && cacheWhitelist == [CacheName]
    modifies s
    ensures s.Valid() && s.State() == ActivateStep(old(s.State()), cacheName)
  {
    if cacheName !in cacheWhitelist {
      var _ := s.Delete(cacheName);
    }
  }

  /** The effect of one turn: the name is deleted unless whitelisted. */
  function ActivateStep(st: Store, name: string): Store {
    if name == CacheName then st else DeleteEffect(st, name)
  }

  lemma ActivateStepMoves(st: Store, i: nat)
    requires WellFormed(st) && i < |st.names|
    ensures ActivateStep(Restrict(st, Pending(st.names, i)), st.names[i])
         == Restrict(st, Pending(st.names, i + 1))
  {
    if st.names[i] == CacheName {
      KeepStep(st, i);
    } else {
      DeleteStep(st, i);
    }
  }

  lemma RestrictToAllNames(st: Store)
    requires WellFormed(st)
    ensures Restrict(st, Pending(st.names, 0)) == st
  {
    var keep := Pending(st.names, 0);
    PendingCoversAll(st.names);
    RestrictAll(st, keep);
  }

  lemma PendingCoversAll(ns: seq<string>)
    ensures forall n :: n in ns ==> n in Pending(ns, 0)
  {
    forall n | n in ns ensures n in Pending(ns, 0) {
      var k :| 0 <= k < |ns| && ns[k] == n;
    }
  }

  /** Keeping every listed name keeps the whole store. */
  lemma RestrictAll(st: Store, keep: set<string>)
    requires WellFormed(st) && forall n :: n in st.names ==> n in keep
    ensures Restrict(st, keep) == st
  {
    assert forall i :: 0 <= i < |st.names| ==> st.names[i] in keep;
    KeepAll(st.names, keep);
    var r := Only(st.caches, keep);
    assert r.Keys == st.caches.Keys;
    assert r == st.caches;
  }

  lemma OnlyRemove(caches: map<string, Cache>, keep: set<string>, x: string)
    ensures Only(caches, keep) - {x} == Only(caches, keep - {x})
  {
    var a := Only(caches, keep) - {x};
    var b := Only(caches, keep - {x});
    assert a.Keys == b.Keys;
  }

  /** Deleting a name from a restricted store restricts it further. */
  lemma RestrictRemove(st: Store, keep: set<string>, x: string)
    ensures DeleteEffect(Restrict(st, keep), x) == Restrict(st, keep - {x})
  {
    RemoveFromKeep(st.names, keep, x);
    OnlyRemove(st.caches, keep, x);
  }

  lemma PendingStep(ns: seq<string>, i: nat)
    requires Distinct(ns) && i < |ns| && ns[i] != CacheName
    ensures Pending(ns, i) - {ns[i]} == Pending(ns, i + 1)
  {
    forall k | i + 1 <= k < |ns| ensures ns[k] != ns[i] { }
  }

  /** Deleting the i-th listed cache, not the whitelisted one, moves the
      restriction one name on. */
  lemma DeleteStep(st: Store, i: nat)
    requires WellFormed(st) && i < |st.names| && st.names[i] != CacheName
    ensures DeleteEffect(Restrict(st, Pending(st.names, i)), st.names[i])
         == Restrict(st, Pending(st.names, i + 1))
  {
    PendingStep(st.names, i);
    RestrictRemove(st, Pending(st.names, i), st.names[i]);
  }

  lemma KeepStep(st: Store, i: nat)
    requires i < |st.names| && st.names[i] == CacheName
    ensures Pending(st.names, i) == Pending(st.names, i + 1)
  {
  }

  lemma {:induction false} KeepAll(ns: seq<string>, keep: set<string>)
    requires forall i :: 0 <= i < |ns| ==> ns[i] in keep
    ensures Keep(ns, keep) == ns
  {
    if ns != [] {
      var tail := ns[1..];
      assert forall i :: 0 <= i < |tail| ==> tail[i] == ns[i + 1];
      KeepAll(tail, keep);
      assert ns[0] in keep;
      assert Keep(ns, keep) == [ns[0]] + Keep(tail, keep);
      assert ns == [ns[0]] + tail;
    }
  }


  /** After activate the cache names are a subset of the whitelist and the
      current cache's entries are untouched. */
  lemma ActivateKeepsOnlyCurrent(st: Store)
    requires WellFormed(st)
    ensures var after := ActivateEffect(st);
      && WellFormed(after)
      && (forall n :: n in after.names ==> n == CacheName)
      && (forall n :: n in after.caches ==> n == CacheName)
      && (CacheName in st.caches ==> CacheName in after.caches && after.caches[CacheName] == st.caches[CacheName])
  {
  }

  /** Activating twice is activating once. */
  lemma ActivateIdempotent(st: Store)
    ensures ActivateEffect(ActivateEffect(st)) == ActivateEffect(st)
  {
    KeepIdempotent(st.names, {CacheName});
  }

  lemma {:induction false} KeepSingle(ns: seq<string>, x: string)
    requires Distinct(ns) && x in ns
    ensures Keep(ns, {x}) == [x]
  {
    assert Distinct(ns[1..]) by {
      forall i, j | 0 <= i < j < |ns| - 1 ensures ns[1..][i] != ns[1..][j] {
        assert ns[1..][i] == ns[i + 1] && ns[1..][j] == ns[j + 1];
      }
    }
    if ns[0] == x {
      assert x !in ns[1..];
      assert forall n :: n in ns[1..] ==> n !in {x};
    } else {
      assert x in ns[1..];
      KeepSingle(ns[1..], x);
    }
  }

  /** A successful install followed by activate leaves exactly one cache, the
      current one, holding every listed URL. */
  lemma InstallThenActivate(st: Store, net: seq<NetResult>)
    requires WellFormed(st)
    requires |net| == |UrlsToCache| && forall i :: 0 <= i < |net| ==> FetchedOk(net[i])
    ensures var after := ActivateEffect(InstallEffect(st, net, true));
      && after.names == [CacheName]
      && forall u :: u in UrlsToCache ==> u in after.caches[CacheName]
  {
    InstallPrecachesEveryUrl(st, net);
    var installed := InstallEffect(st, net, true);
    InstallKeepsWellFormed(st, net, true);
    ActivateWithCurrent(installed);
    EveryListedKey(UrlsToCache, installed.caches[CacheName]);
  }

  lemma EveryListedKey(urls: seq<string>, c: Cache)
    requires forall i :: 0 <= i < |urls| ==> urls[i] in c
    ensures forall u :: u in urls ==> u in c
  {
  }

  /** Install keeps the store well formed and leaves the current cache in it. */
  lemma InstallKeepsWellFormed(st: Store, net: seq<NetResult>, writable: bool)
    requires WellFormed(st)
    ensures var r := InstallEffect(st, net, writable);
      WellFormed(r) && CacheName in r.names
  {
    var withCache := OpenEffect(st, CacheName);
    assert WellFormed(withCache) by {
      if CacheName !in st.caches {
        assert forall i :: 0 <= i < |st.names| ==> st.names[i] != CacheName;
      }
    }
  }

  /** Activating a store that holds the current cache leaves just that one. */
  lemma ActivateWithCurrent(st: Store)
    requires WellFormed(st) && CacheName in st.names
    ensures var after := ActivateEffect(st);
      after.names == [CacheName] && after.caches[CacheName] == st.caches[CacheName]
  {
    KeepSingle(st.names, CacheName);
  }
}
