/** The parts of the Cache and CacheStorage interfaces (W3C Service Workers,
    section 5.4 Cache and section 5.5 CacheStorage) that the offline worker
    relies on: open, match, put, addAll, keys and delete, over a store that
    maps cache names to caches and keeps the names in creation order. */
module CacheApi {
  import opened Common

  datatype ResponseType = Basic | Cors | Opaque | OpaqueRedirect | ErrorType | DefaultType

  /** A response as a value; the body is not inspected by the worker. */
  datatype Response = Response(status: int, kind: ResponseType, body: string)

  /** A request's identity for cache matching: its URL and its method (`verb`). */
  datatype Request = Request(url: string, verb: string)

  /** One cache: request URL to stored response. Only GET requests are ever
      stored (`put` and `addAll` refuse others), so the URL is the key. */
  type Cache = map<string, Response>

  /** What the network gives back for one request. */
  datatype NetResult = NetworkError | Delivered(response: Response)

  /** The cache storage: name to cache, and the names in the order that
      `keys()` reports them (creation order). */
  datatype Store = Store(caches: map<string, Cache>, names: seq<string>)

  predicate Distinct(ns: seq<string>) {
    forall i, j :: 0 <= i < j < |ns| ==> ns[i] != ns[j]
  }

  ghost predicate WellFormed(st: Store) {
    Distinct(st.names) && forall n :: n in st.caches <==> n in st.names
  }

  /** `ns` with only the names in `keep`, order preserved. */
  function Keep(ns: seq<string>, keep: set<string>): (r: seq<string>)
    ensures forall n :: n in r <==> n in ns && n in keep
    ensures Distinct(ns) ==> Distinct(r)
    ensures (forall n :: n in ns ==> n !in keep) ==> r == []
  {
    if ns == [] then []
    else
      var rest := Keep(ns[1..], keep);
      assert forall n :: n in ns[1..] ==> n in ns;
      (if ns[0] in keep then [ns[0]] else []) + rest
  }

  /** `ns` without `x`. */
  function Remove(ns: seq<string>, x: string): (r: seq<string>)
    ensures forall n :: n in r <==> n in ns && n != x
  {
    if ns == [] then []
    else (if ns[0] == x then [] else [ns[0]]) + Remove(ns[1..], x)
  }

  lemma {:induction false} RemoveFromKeep(ns: seq<string>, keep: set<string>, x: string)
    ensures Remove(Keep(ns, keep), x) == Keep(ns, keep - {x})
  {
    if ns != [] {
      RemoveFromKeep(ns[1..], keep, x);
      var head := if ns[0] in keep then [ns[0]] else [];
      RemoveConcat(head, Keep(ns[1..], keep), x);
    }
  }

  lemma {:induction false} RemoveConcat(a: seq<string>, b: seq<string>, x: string)
    ensures Remove(a + b, x) == Remove(a, x) + Remove(b, x)
  {
    if a != [] {
      assert (a + b)[1..] == a[1..] + b;
      RemoveConcat(a[1..], b, x);
    } else {
      assert a + b == b;
    }
  }

  /** Keeping the same names twice keeps them once. */
  lemma {:induction false} KeepIdempotent(ns: seq<string>, keep: set<string>)
    ensures Keep(Keep(ns, keep), keep) == Keep(ns, keep)
  {
    if ns != [] {
      KeepIdempotent(ns[1..], keep);
      var r := Keep(ns, keep);
      if ns[0] in keep {
        assert r[0] == ns[0] && r[1..] == Keep(ns[1..], keep);
        assert Keep(r, keep) == [ns[0]] + Keep(r[1..], keep);
      } else {
        assert r == Keep(ns[1..], keep);
      }
    }
  }

  /** The first cache, in name order, whose entries hold `url`. */
  function FirstHit(caches: map<string, Cache>, names: seq<string>, url: string): (r: Option<Response>)
    ensures r.None? <==> forall k :: 0 <= k < |names| && names[k] in caches ==> url !in caches[names[k]]
    ensures r.Some? ==>
      exists k :: 0 <= k < |names| && names[k] in caches && url in caches[names[k]]
        && caches[names[k]][url] == r.value
        && forall m :: 0 <= m < k && names[m] in caches ==> url !in caches[names[m]]
  {
    if names == [] then None
    else if names[0] in caches && url in caches[names[0]] then Some(caches[names[0]][url])
    else
      var r := FirstHit(caches, names[1..], url);
      assert forall k :: 1 <= k < |names| ==> names[k] == names[1..][k - 1];
      if r.Some? then
        var k :| 0 <= k < |names| - 1 && names[1..][k] in caches && url in caches[names[1..][k]]
          && caches[names[1..][k]][url] == r.value
          && forall m :: 0 <= m < k && names[1..][m] in caches ==> url !in caches[names[1..][m]];
        assert names[k + 1] == names[1..][k];
        assert forall m :: 1 <= m < k + 1 ==> names[m] == names[1..][m - 1];
        r
      else r
  }

  /** `caches.match(request)`: no match for a non-GET request; otherwise the
      stored response of the first cache, in name order, that holds it. */
  function MatchSpec(st: Store, req: Request): Option<Response> {
    if req.verb != "GET" then None else FirstHit(st.caches, st.names, req.url)
  }

  /** `caches.open(name)`: the named cache, created empty and appended to the
      names when it does not exist yet. */
  function OpenEffect(st: Store, name: string): (r: Store)
    ensures name in r.caches
  {
    if name in st.caches then st
    else Store(st.caches[name := map[]], st.names + [name])
  }

  /** `cache.put` rejects a non-GET request and a 206 response; `writable`
      stands for the storage accepting the write (quota). */
  predicate PutAllowed(req: Request, resp: Response) {
    req.verb == "GET" && resp.status != 206
  }

  /** The store after a successful `put` into the named cache. */
  function PutEffect(st: Store, name: string, req: Request, resp: Response): Store
    requires name in st.caches
  {
    Store(st.caches[name := st.caches[name][req.url := resp]], st.names)
  }

  /** What `addAll` demands of each fetched response: not a network error,
      not of type "error", an ok status (200-299) other than 206. */
  predicate FetchedOk(r: NetResult) {
    r.Delivered? && r.response.kind != ErrorType
    && 200 <= r.response.status <= 299 && r.response.status != 206
  }

  /** `addAll` resolves: every fetch succeeded, no request repeats one before
      it in the batch, and the storage accepts the batch. */
  predicate AddAllSucceeds(urls: seq<string>, net: seq<NetResult>, writable: bool) {
    |net| == |urls| && (forall i :: 0 <= i < |net| ==> FetchedOk(net[i]))
    && Distinct(urls) && writable
  }

  /** The cache after the batch of put operations, applied in order. */
  function Batch(c: Cache, urls: seq<string>, net: seq<NetResult>): Cache
    requires |net| == |urls| && forall i :: 0 <= i < |net| ==> net[i].Delivered?
  {
    if urls == [] then c
    else
      var n := |urls| - 1;
      Batch(c, urls[..n], net[..n])[urls[n] := net[n].response]
  }

  /** The batch adds exactly the batch's URLs, leaves every other entry as it
      was, and (requests being distinct) stores each URL's own response. */
  lemma {:induction false} BatchContents(c: Cache, urls: seq<string>, net: seq<NetResult>)
    requires |net| == |urls| && forall i :: 0 <= i < |net| ==> net[i].Delivered?
    ensures Batch(c, urls, net).Keys == c.Keys + set u | u in urls
    ensures forall u :: u in c && u !in urls ==> Batch(c, urls, net)[u] == c[u]
    ensures Distinct(urls) ==> forall i :: 0 <= i < |urls| ==> Batch(c, urls, net)[urls[i]] == net[i].response
  {
    BatchKeys(c, urls, net);
    BatchKeepsOthers(c, urls, net);
    if Distinct(urls) {
      BatchValues(c, urls, net);
    }
  }

  lemma {:induction false} BatchKeys(c: Cache, urls: seq<string>, net: seq<NetResult>)
    requires |net| == |urls| && forall i :: 0 <= i < |net| ==> net[i].Delivered?
    ensures Batch(c, urls, net).Keys == c.Keys + set u | u in urls
  {
    if urls != [] {
      var n := |urls| - 1;
      BatchKeys(c, urls[..n], net[..n]);
      assert urls == urls[..n] + [urls[n]];
      assert (set u | u in urls) == (set u | u in urls[..n]) + {urls[n]};
    }
  }

  lemma {:induction false} BatchKeepsOthers(c: Cache, urls: seq<string>, net: seq<NetResult>)
    requires |net| == |urls| && forall i :: 0 <= i < |net| ==> net[i].Delivered?
    ensures forall u :: u in c && u !in urls ==> u in Batch(c, urls, net) && Batch(c, urls, net)[u] == c[u]
  {
    if urls != [] {
      var n := |urls| - 1;
      BatchKeys(c, urls[..n], net[..n]);
      BatchKeepsOthers(c, urls[..n], net[..n]);
      assert forall u :: u in urls[..n] ==> u in urls;
    }
  }

  lemma {:induction false} BatchValues(c: Cache, urls: seq<string>, net: seq<NetResult>)
    requires |net| == |urls| && forall i :: 0 <= i < |net| ==> net[i].Delivered?
    requires Distinct(urls)
    ensures forall i :: 0 <= i < |urls| ==> urls[i] in Batch(c, urls, net) && Batch(c, urls, net)[urls[i]] == net[i].response
  {
    if urls != [] {
      var n := |urls| - 1;
      var front := urls[..n];
      assert forall i :: 0 <= i < n ==> front[i] == urls[i] && net[..n][i] == net[i];
      assert Distinct(front);
      BatchKeys(c, front, net[..n]);
      BatchValues(c, front, net[..n]);
      forall i | 0 <= i < n ensures urls[i] != urls[n] { }
    }
  }


  /** The store after `cache.addAll(urls)` on the named cache: all of the
      batch or none of it. */
  function AddAllEffect(st: Store, name: string, urls: seq<string>, net: seq<NetResult>, writable: bool): Store
    requires name in st.caches
  {
    if AddAllSucceeds(urls, net, writable)
    then Store(st.caches[name := Batch(st.caches[name], urls, net)], st.names)
    else st
  }

  /** A successful `addAll` stores every URL of the batch, with the response
      fetched for it, in the named cache. */
  lemma AddAllStoresEveryUrl(st: Store, name: string, urls: seq<string>, net: seq<NetResult>)
    requires name in st.caches && AddAllSucceeds(urls, net, true)
    ensures var after := AddAllEffect(st, name, urls, net, true);
      && name in after.caches
      && forall i :: 0 <= i < |urls| ==>
           urls[i] in after.caches[name] && after.caches[name][urls[i]] == net[i].response
  {
    assert forall k :: 0 <= k < |net| ==> net[k].Delivered? by {
      forall k | 0 <= k < |net| ensures net[k].Delivered? { assert FetchedOk(net[k]); }
    }
    BatchValues(st.caches[name], urls, net);
  }

  /** `caches.delete(name)`: removes the named cache, reporting whether it existed. */
  function DeleteEffect(st: Store, name: string): Store {
    Store(st.caches - {name}, Remove(st.names, name))
  }

  /** Put followed by match: once the named cache holds the URL and no cache
      before it in name order does, a GET for that URL hits the new response. */
  lemma {:induction false} HitAfterPut(caches: map<string, Cache>, names: seq<string>, name: string, url: string, resp: Response)
    requires Distinct(names) && name in names && name in caches
    requires url in caches[name] && caches[name][url] == resp
    requires forall n :: n in caches && n != name ==> url !in caches[n]
    ensures FirstHit(caches, names, url) == Some(resp)
  {
    var r := FirstHit(caches, names, url);
    var j :| 0 <= j < |names| && names[j] == name;
    assert r.Some?;
    var k :| 0 <= k < |names| && names[k] in caches && url in caches[names[k]]
      && caches[names[k]][url] == r.value;
    assert names[k] == name;
  }

  /** The browser's cache storage, mutated in place by the worker's handlers. */
  class CacheStorage {
    var caches: map<string, Cache>
    var names: seq<string>

    function State(): Store reads this {
      Store(caches, names)
    }

    ghost predicate Valid() reads this {
      WellFormed(State())
    }

    /** The storage as the worker finds it. */
    constructor (initial: Store)
      requires WellFormed(initial)
      ensures Valid() && State() == initial
    {
      caches := initial.caches;
      names := initial.names;
    }

    method Open(name: string)
      requires Valid()
      modifies this
      ensures Valid() && State() == OpenEffect(old(State()), name)
    {
      if name !in caches {
        caches := caches[name := map[]];
        names := names + [name];
      }
    }

    /** `caches.match`: the caches are queried one by one in name order. */
    method Match(req: Request) returns (r: Option<Response>)
      requires Valid()
      ensures r == MatchSpec(State(), req)
    {
      if req.verb != "GET" {
        return None;
      }
      var i := 0;
      while i < |names|
        invariant 0 <= i <= |names|
        invariant forall k :: 0 <= k < i && names[k] in caches ==> req.url !in caches[names[k]]
      {
        var name := names[i];
        if req.url in caches[name] {
          r := Some(caches[name][req.url]);
          var hit := FirstHit(caches, names, req.url);
          assert hit.Some?;
          var k :| 0 <= k < |names| && names[k] in caches && req.url in caches[names[k]]
            && caches[names[k]][req.url] == hit.value
            && forall m :: 0 <= m < k && names[m] in caches ==> req.url !in caches[names[m]];
          assert k == i;
          return;
        }
        i := i + 1;
      }
      r := None;
    }

    method Put(name: string, req: Request, resp: Response, writable: bool) returns (ok: bool)
      requires Valid() && name in caches
      modifies this
      ensures Valid()
      ensures ok == (PutAllowed(req, resp) && writable)
      ensures State() == if ok then PutEffect(old(State()), name, req, resp) else old(State())
    {
      ok := PutAllowed(req, resp) && writable;
      if ok {
        caches := caches[name := caches[name][req.url := resp]];
      }
    }

    /** `cache.addAll`: the fetch phase checks every response, then the batch
        of puts is committed as one. */
    method AddAll(name: string, urls: seq<string>, net: seq<NetResult>, writable: bool) returns (ok: bool)
      requires Valid() && name in caches && |net| == |urls|
      modifies this
      ensures Valid()
      ensures ok == AddAllSucceeds(urls, net, writable)
      ensures State() == AddAllEffect(old(State()), name, urls, net, writable)
    {
      var i := 0;
      while i < |net|
        invariant 0 <= i <= |net|
        invariant forall k :: 0 <= k < i ==> FetchedOk(net[k])
      {
        if !FetchedOk(net[i]) {
          return false;
        }
        i := i + 1;
      }
      if !Distinct(urls) || !writable {
        return false;
      }
      assert AddAllSucceeds(urls, net, writable);
      assert forall k :: 0 <= k < |net| ==> net[k].Delivered? by {
        forall k | 0 <= k < |net| ensures net[k].Delivered? { assert FetchedOk(net[k]); }
      }
      var batch := BuildBatch(caches[name], urls, net);
      caches := caches[name := batch];
      ok := true;
    }

    method Keys() returns (ns: seq<string>)
      requires Valid()
      ensures ns == names && Distinct(ns)
    {
      ns := names;
    }

    method Delete(name: string) returns (found: bool)
      requires Valid()
      modifies this
      ensures Valid()
      ensures found == (name in old(caches))
      ensures State() == DeleteEffect(old(State()), name)
    {
      found := name in caches;
      caches := caches - {name};
      names := Remove(names, name);
      RemovePreservesDistinct(old(names), name);
    }
  }

  /** The batch of puts, applied one after the other. */
  method BuildBatch(c: Cache, urls: seq<string>, net: seq<NetResult>) returns (batch: Cache)
    requires |net| == |urls| && forall i :: 0 <= i < |net| ==> net[i].Delivered?
    ensures batch == Batch(c, urls, net)
  {
    batch := c;
    var i := 0;
    while i < |urls|
      invariant 0 <= i <= |urls|
      invariant batch == Batch(c, urls[..i], net[..i])
    {
      ghost var step := urls[..i + 1];
      assert step[..i] == urls[..i] && net[..i + 1][..i] == net[..i] && step[i] == urls[i];
      batch := batch[urls[i] := net[i].response];
      i := i + 1;
    }
    assert urls[..i] == urls && net[..i] == net;
  }

  lemma {:induction false} RemovePreservesDistinct(ns: seq<string>, x: string)
    requires Distinct(ns)
    ensures Distinct(Remove(ns, x))
  {
    if ns != [] {
      assert Distinct(ns[1..]) by {
        forall i, j | 0 <= i < j < |ns| - 1 ensures ns[1..][i] != ns[1..][j] {
          assert ns[1..][i] == ns[i + 1] && ns[1..][j] == ns[j + 1];
        }
      }
      RemovePreservesDistinct(ns[1..], x);
      assert ns[0] !in ns[1..];
    }
  }
}
