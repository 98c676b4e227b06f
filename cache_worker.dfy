/** The offline cache worker: an `install` handler that pre-caches a fixed
    manifest into the cache named by the current version, a cache-first
    `fetch` handler, and an `activate` handler that deletes every cache
    whose name is not whitelisted.

    Cache storage is a class with two fields: the cache names in creation
    order (what `caches.keys()` yields and the order in which `caches.match`
    searches) and, per name, the stored responses keyed by request URL.
    The network is a function-valued parameter. */
module CacheWorker {
  import opened Dom

  type Url = string
  type Name = string

  /** A response as far as the worker can observe it. */
  datatype Response = Response(status: int, body: string)

  /** What a network fetch settles to: a response, or a rejected promise. */
  datatype Fetched = Received(response: Response) | NetworkError

  /** How a fetch event is answered: from cache storage, or by whatever the
      network gives back. */
  datatype Reply = FromCache(response: Response) | FromNetwork(result: Fetched)

  /** The version token naming the cache this worker fills. */
  const CurrentCache: Name := "my-site-cache-v1"

  /** The URLs pre-cached at install time. */
  const Manifest: seq<Url> := ["/", "/index.html", "/css/styles.css", "/js/script.js", "/images/logo.png"]

  /** The cache names that survive activation. */
  const Whitelist: seq<Name> := [CurrentCache]

  /** `Cache.addAll` stores a response only if the fetch succeeded with an
      ok (2xx) status other than 206 (partial content); anything else
      rejects the whole batch. */
  predicate Storable(f: Fetched) {
    f.Received? && 200 <= f.response.status <= 299 && f.response.status != 206
  }

  predicate Distinct(names: seq<Name>) {
    forall i, j | 0 <= i < j < |names| :: names[i] != names[j]
  }

  /** The name list and the name-to-cache map describe the same caches, each once. */
  ghost predicate Consistent(names: seq<Name>, caches: map<Name, map<Url, Response>>) {
    Distinct(names) && forall n :: n in names <==> n in caches
  }

  predicate Holds(caches: map<Name, map<Url, Response>>, name: Name, url: Url) {
    name in caches && url in caches[name]
  }

  /** The cache at position `k` holds `url` and no cache created before it does. */
  predicate AnswersFirst(names: seq<Name>, caches: map<Name, map<Url, Response>>, url: Url, k: int) {
    0 <= k < |names| && Holds(caches, names[k], url) &&
    forall j | 0 <= j < k :: !Holds(caches, names[j], url)
  }

  /** `caches.match(request)`: searches every cache, in creation order, and
      yields the entry of the first one that holds the URL. */
  function Match(names: seq<Name>, caches: map<Name, map<Url, Response>>, url: Url): (r: Option<Response>)
    ensures r.None? <==> forall i | 0 <= i < |names| :: !Holds(caches, names[i], url)
    ensures r.Some? ==> exists k :: AnswersFirst(names, caches, url, k) && r.value == caches[names[k]][url]
  {
    var k := FindIndex(names, (n: Name) => Holds(caches, n, url));
    if k == -1 then None
    else
      assert AnswersFirst(names, caches, url, k);
      Some(caches[names[k]][url])
  }

  /** The names `activate` keeps, in their original order. */
  function Whitelisted(names: seq<Name>): (r: seq<Name>)
    ensures forall n :: n in r <==> n in names && n in Whitelist
    ensures Distinct(names) ==> Distinct(r)
    decreases |names|
  {
    if |names| == 0 then []
    else
      var init, last := names[..|names| - 1], names[|names| - 1];
      assert forall n | n in init :: n in names;
      Whitelisted(init) + (if last in Whitelist then [last] else [])
  }

  /** The caches `activate` keeps. */
  function Purged(caches: map<Name, map<Url, Response>>): (r: map<Name, map<Url, Response>>)
    ensures forall n :: n in r <==> n in caches && n in Whitelist
    ensures forall n | n in r :: r[n] == caches[n]
  {
    map n | n in caches && n in Whitelist :: caches[n]
  }

  /** `names` with `name` deleted. */
  function Without(names: seq<Name>, name: Name): (r: seq<Name>)
    ensures forall n :: n in r <==> n in names && n != name
    ensures Distinct(names) ==> Distinct(r)
  {
    if |names| == 0 then []
    else
      var rest := Without(names[1..], name);
      assert Distinct(names) ==> Distinct(names[1..]) && names[0] !in names[1..];
      if names[0] == name then rest else [names[0]] + rest
  }

  lemma {:induction false} WithoutConcat(a: seq<Name>, b: seq<Name>, name: Name)
    ensures Without(a + b, name) == Without(a, name) + Without(b, name)
  {
    if |a| > 0 {
      assert (a + b)[0] == a[0];
      assert (a + b)[1..] == a[1..] + b;
      WithoutConcat(a[1..], b, name);
    } else {
      assert a + b == b;
    }
  }

  lemma {:induction false} WithoutAbsent(names: seq<Name>, name: Name)
    requires name !in names
    ensures Without(names, name) == names
  {
    if |names| > 0 {
      WithoutAbsent(names[1..], name);
    }
  }

  /** What cache `CurrentCache` holds before install writes into it:
      `caches.open` creates it empty when it does not exist. */
  function Prior(caches: map<Name, map<Url, Response>>): (r: map<Url, Response>)
    ensures CurrentCache in caches ==> r == caches[CurrentCache]
    ensures CurrentCache !in caches ==> r == map[]
  {
    if CurrentCache in caches then caches[CurrentCache] else map[]
  }

  /** The fetch-everything half of `Cache.addAll`: fetches every URL and
      yields the responses keyed by URL, or nothing if any fetch failed or
      came back with a non-ok or partial-content status. */
  method FetchAll(urls: seq<Url>, net: Url -> Fetched) returns (entries: Option<map<Url, Response>>)
    ensures entries.Some? <==> forall i | 0 <= i < |urls| :: Storable(net(urls[i]))
    ensures entries.Some? ==> entries.value.Keys == set u | u in urls
    ensures entries.Some? ==> forall u | u in entries.value :: net(u) == Received(entries.value[u])
  {
    var acc: map<Url, Response> := map[];
    var i := 0;
    while i < |urls|
      invariant 0 <= i <= |urls|
      invariant forall j | 0 <= j < i :: Storable(net(urls[j]))
      invariant acc.Keys == set u | u in urls[..i]
      invariant forall u | u in acc :: net(u) == Received(acc[u])
    {
      var f := net(urls[i]);
      if !Storable(f) {
        return None;
      }
      acc := acc[urls[i] := f.response];
      assert urls[..i + 1] == urls[..i] + [urls[i]];
      i := i + 1;
    }
    assert urls[..i] == urls;
    entries := Some(acc);
  }

  /** After activation only `CurrentCache` is left, so a request is answered
      from storage exactly when that cache holds it. */
  lemma ActivatedMatch(names: seq<Name>, caches: map<Name, map<Url, Response>>, url: Url)
    requires Consistent(names, caches)
    requires forall n | n in names :: n in Whitelist
    ensures Match(names, caches, url) ==
      if Holds(caches, CurrentCache, url) then Some(caches[CurrentCache][url]) else None
  {
    if |names| == 1 {
      assert names[0] in names;
      assert names[0] == CurrentCache;
    }
  }

  /** Running `activate` a second time keeps exactly what the first kept. */
  lemma {:induction false} WhitelistedIdempotent(names: seq<Name>)
    ensures Whitelisted(Whitelisted(names)) == Whitelisted(names)
    decreases |names|
  {
    if |names| > 0 {
      var init, last := names[..|names| - 1], names[|names| - 1];
      WhitelistedIdempotent(init);
      var w := Whitelisted(init);
      var tail := if last in Whitelist then [last] else [];
      WhitelistedAppend(w, tail);
      assert Whitelisted(tail) == tail by {
        if last in Whitelist {
          assert tail[..0] == [];
        }
      }
    }
  }

  lemma {:induction false} WhitelistedAppend(a: seq<Name>, b: seq<Name>)
    ensures Whitelisted(a + b) == Whitelisted(a) + Whitelisted(b)
    decreases |b|
  {
    if |b| > 0 {
      var b', last := b[..|b| - 1], b[|b| - 1];
      assert (a + b)[..|a + b| - 1] == a + b';
      assert (a + b)[|a + b| - 1] == last;
      WhitelistedAppend(a, b');
    } else {
      assert a + b == a;
    }
  }

  /** Activating storage that was already activated leaves it identical:
      the same names in the same order, and the same caches. */
  lemma ActivateIdempotent(names: seq<Name>, caches: map<Name, map<Url, Response>>)
    ensures Whitelisted(Whitelisted(names)) == Whitelisted(names)
    ensures Purged(Purged(caches)) == Purged(caches)
  {
    WhitelistedIdempotent(names);
  }

  /** Activation keeps the cache named `CurrentCache`, if there is one, with
      every entry as it was, and removes every other cache. */
  lemma ActivateKeepsCurrent(names: seq<Name>, caches: map<Name, map<Url, Response>>)
    requires Consistent(names, caches)
    ensures CurrentCache in names ==> CurrentCache in Whitelisted(names)
    ensures CurrentCache in caches ==> CurrentCache in Purged(caches) && Purged(caches)[CurrentCache] == caches[CurrentCache]
    ensures Purged(caches).Keys <= {CurrentCache}
    ensures Whitelisted(names) == if CurrentCache in names then [CurrentCache] else []
  {
    WhitelistedSingle(names);
  }

  /** Of distinct names, activation keeps at most `CurrentCache`. */
  lemma {:induction false} WhitelistedSingle(names: seq<Name>)
    requires Distinct(names)
    ensures Whitelisted(names) == if CurrentCache in names then [CurrentCache] else []
    decreases |names|
  {
    if |names| > 0 {
      var init, last := names[..|names| - 1], names[|names| - 1];
      assert names == init + [last];
      WhitelistedSingle(init);
      if last == CurrentCache {
        assert CurrentCache !in init;
      }
    }
  }

  /** One iteration of the `activate` loop: deleting the `i`-th name when it
      is not whitelisted moves it from the unvisited to the visited part. */
  lemma ActivateStep(cacheNames: seq<Name>, i: nat)
    requires i < |cacheNames| && Distinct(cacheNames)
    ensures var name := cacheNames[i];
            var before := Whitelisted(cacheNames[..i]) + cacheNames[i..];
            var after := Whitelisted(cacheNames[..i + 1]) + cacheNames[i + 1..];
            (name in Whitelist ==> before == after) &&
            (name !in Whitelist ==> Without(before, name) == after)
  {
    var name := cacheNames[i];
    var done := Whitelisted(cacheNames[..i]);
    assert cacheNames[..i + 1][..i] == cacheNames[..i];
    assert cacheNames[i..] == [name] + cacheNames[i + 1..];
    if name !in Whitelist {
      WithoutConcat(done, cacheNames[i..], name);
      WithoutAbsent(done, name);
      assert name !in cacheNames[i + 1..];
      WithoutAbsent(cacheNames[i + 1..], name);
    }
  }

  /** Storage whose names are the whitelisted old names, and whose caches are
      old caches left as they were, is the purged old storage. */
  lemma PurgedByNames(oldNames: seq<Name>, oldCaches: map<Name, map<Url, Response>>,
                      names: seq<Name>, caches: map<Name, map<Url, Response>>)
    requires Consistent(oldNames, oldCaches) && Consistent(names, caches)
    requires names == Whitelisted(oldNames)
    requires forall n | n in caches :: n in oldCaches && caches[n] == oldCaches[n]
    ensures caches == Purged(oldCaches)
  {
    assert caches.Keys == Purged(oldCaches).Keys;
  }

  /** Before activation a superseded cache created earlier can still answer
      a request that the current cache also holds; after activation the
      current cache answers it. */
  lemma StaleCacheAnswersUntilActivate(stale: Response, renewed: Response)
    ensures var names := ["my-site-cache-v0", CurrentCache];
            var caches := map["my-site-cache-v0" := map["/index.html" := stale],
                              CurrentCache := map["/index.html" := renewed]];
            Match(names, caches, "/index.html") == Some(stale) &&
            Match(Whitelisted(names), Purged(caches), "/index.html") == Some(renewed)
  {
    var names := ["my-site-cache-v0", CurrentCache];
    var caches := map["my-site-cache-v0" := map["/index.html" := stale],
                      CurrentCache := map["/index.html" := renewed]];
    assert Holds(caches, names[0], "/index.html");
    assert "my-site-cache-v0" !in Whitelist;
    assert Whitelisted(names[..1]) == [];
    assert Whitelisted(names) == [CurrentCache];
    ActivatedMatch(Whitelisted(names), Purged(caches), "/index.html");
  }

  /** The browser's cache storage as the worker sees it. */
  class CacheStorage {
    var names: seq<Name>
    var caches: map<Name, map<Url, Response>>

    ghost predicate Valid()
      reads this
    {
      Consistent(names, caches)
    }

    constructor(names0: seq<Name>, caches0: map<Name, map<Url, Response>>)
      requires Consistent(names0, caches0)
      ensures Valid() && names == names0 && caches == caches0
    {
      names := names0;
      caches := caches0;
    }

    /** `caches.open(name)`: creates an empty cache under `name` unless one exists. */
    method Open(name: Name)
      requires Valid()
      modifies this
      ensures Valid()
      ensures names == if name in old(names) then old(names) else old(names) + [name]
      ensures caches == if name in old(caches) then old(caches) else old(caches)[name := map[]]
    {
      if name !in caches {
        names := names + [name];
        caches := caches[name := map[]];
      }
    }

    /** `caches.delete(name)`: removes the cache, reporting whether it existed. */
    method Delete(name: Name) returns (deleted: bool)
      requires Valid()
      modifies this
      ensures Valid()
      ensures deleted == (name in old(caches))
      ensures names == Without(old(names), name)
      ensures caches == old(caches) - {name}
    {
      deleted := name in caches;
      names := Without(names, name);
      caches := caches - {name};
    }

    /** The `install` handler: opens `CurrentCache` and adds every manifest URL
        to it, all or nothing. Only `CurrentCache` is written. */
    method Install(net: Url -> Fetched) returns (ok: bool)
      requires Valid()
      modifies this
      ensures Valid()
      ensures names == if CurrentCache in old(names) then old(names) else old(names) + [CurrentCache]
      ensures caches.Keys == old(caches).Keys + {CurrentCache}
      ensures forall n | n in old(caches) && n != CurrentCache :: caches[n] == old(caches)[n]
      ensures ok <==> forall i | 0 <= i < |Manifest| :: Storable(net(Manifest[i]))
      ensures !ok ==> caches[CurrentCache] == Prior(old(caches))
      ensures ok ==> caches[CurrentCache].Keys == Prior(old(caches)).Keys + set u | u in Manifest
      ensures ok ==> forall u | u in Manifest :: net(u) == Received(caches[CurrentCache][u])
      ensures ok ==> forall u | u in Prior(old(caches)) && u !in Manifest ::
                       caches[CurrentCache][u] == Prior(old(caches))[u]
    {
      Open(CurrentCache);
      var entries := FetchAll(Manifest, net);
      ok := entries.Some?;
      if ok {
        caches := caches[CurrentCache := caches[CurrentCache] + entries.value];
      }
    }

    /** The `fetch` handler: cache first, network on a miss; storage is only read. */
    method Fetch(url: Url, net: Url -> Fetched) returns (reply: Reply)
      ensures Match(names, caches, url).Some? ==> reply == FromCache(Match(names, caches, url).value)
      ensures Match(names, caches, url).None? ==> reply == FromNetwork(net(url))
    {
      var hit := Match(names, caches, url);
      if hit.Some? {
        reply := FromCache(hit.value);
      } else {
        reply := FromNetwork(net(url));
      }
    }

    /** One round of the `activate` loop: deletes the `i`-th of the names
        listed at the start unless it is whitelisted. */
    method Retire(cacheNames: seq<Name>, i: nat)
      requires Valid() && Distinct(cacheNames) && i < |cacheNames|
      requires names == Whitelisted(cacheNames[..i]) + cacheNames[i..]
      modifies this
      ensures Valid()
      ensures names == Whitelisted(cacheNames[..i + 1]) + cacheNames[i + 1..]
      ensures forall n | n in caches :: n in old(caches) && caches[n] == old(caches)[n]
    {
      var name := cacheNames[i];
      ActivateStep(cacheNames, i);
      if name !in Whitelist {
        var _ := Delete(name);
      }
    }

    /** The `activate` handler: deletes every cache whose name is not whitelisted. */
    method Activate()
      requires Valid()
      modifies this
      ensures Valid()
      ensures names == Whitelisted(old(names))
      ensures caches == Purged(old(caches))
    {
      var cacheNames := names;
      var i := 0;
      while i < |cacheNames|
        invariant 0 <= i <= |cacheNames|
        invariant Valid()
        invariant Distinct(cacheNames)
        invariant names == Whitelisted(cacheNames[..i]) + cacheNames[i..]
        invariant forall n | n in caches :: n in old(caches) && caches[n] == old(caches)[n]
      {
        Retire(cacheNames, i);
        i := i + 1;
      }
      assert cacheNames[..i] == cacheNames;
      PurgedByNames(old(names), old(caches), names, caches);
    }
  }
}
