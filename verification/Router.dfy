/** The router (fasthttp-routing/router.go): one store per method, and the largest number of
    parameters of any route, which is the size of the buffers lookups write to. */
module Routers {
  import opened Basics
  import opened RouteKeys
  import opened RouteSearch
  import opened RouteBuffer
  import opened RouteStore
  import opened ReverseRoute

  ghost predicate Within<D>(adds: seq<Added<D>>, n: int) {
    forall i :: 0 <= i < |adds| ==> |Names(adds[i].key)| <= n
  }

  lemma WithinNothing<D>(n: int)
    ensures Within<D>([], n)
  {
  }

  lemma WithinLarger<D>(adds: seq<Added<D>>, n: int, n': int)
    requires Within(adds, n) && n <= n'
    ensures Within(adds, n')
  {
  }

  lemma WithinMore<D>(adds: seq<Added<D>>, a: Added<D>, n: int, n': int)
    requires Within(adds, n) && n <= n'
    ensures Within(adds, n') && (|Names(a.key)| <= n' ==> Within(adds + [a], n'))
  {
  }

  class Router<D(!new)> {
    var stores: map<string, Store<D>>
    var maxParams: int
    ghost var owner: map<Node<D>, string> // the method whose store a node belongs to

    /** The store of a method has nodes of its own, and its routes fit `maxParams`. */
    ghost predicate Holds(m: string)
      reads this, stores.Values, owner.Keys
    {
      && m in stores && stores[m].root in owner && stores[m].root in stores[m].root.Repr
      && (forall n :: n in stores[m].root.Repr ==> n in owner && owner[n] == m)
      && stores[m].Valid() && Within(stores[m].adds, maxParams)
    }

    ghost predicate Valid()
      reads this, stores.Values, owner.Keys
    {
      maxParams >= 0 && forall m :: m in stores ==> Holds(m)
    }

    /** The routes added for a method, in order. */
    ghost function History(m: string): seq<Added<D>>
      reads this, stores.Values
    {
      if m in stores then stores[m].adds else []
    }

    constructor ()
      ensures Valid() && maxParams == 0 && forall m :: History(m) == []
    {
      stores, maxParams, owner := map[], 0, map[];
    }

    /** The store of a method, made when it is missing. */
    method StoreFor(m: string) returns (s: Store<D>)
      requires Valid()
      modifies this
      ensures Valid() && m in stores && stores[m] == s && maxParams == old(maxParams)
      ensures forall k :: History(k) == old(History(k))
      ensures m in old(stores) ==> stores == old(stores) && owner == old(owner)
      ensures m !in old(stores) ==> fresh(s) && fresh(s.root.Repr)
    {
      hide Within, Indexes, Names;
      if m in stores {
        return stores[m];
      }
      s := new Store<D>();
      stores := stores[m := s];
      owner := owner + map n | n in s.root.Repr :: m;
      assert s.root in s.root.Repr;
      WithinNothing<D>(maxParams);
      forall k | k in stores && k != m
        ensures Holds(k)
      {
        HoldsStill(k);
      }
      assert Holds(m);
    }

    /** A store that is not touched, nor its nodes, is as before. */
    twostate lemma HoldsStill(k: string)
      requires old(Holds(k)) && k in stores && stores[k] == old(stores[k]) && unchanged(stores[k])
      requires forall n :: n in old(stores[k].root.Repr) ==> unchanged(n) && n in owner && owner[n] == k
      requires old(stores[k].root in stores[k].root.Repr) && maxParams >= old(maxParams)
      ensures Holds(k) && History(k) == old(History(k))
    {
      hide Within, Indexes, Names;
      WithinLarger(stores[k].adds, old(maxParams), maxParams);
    }

    /** `add`: the route goes behind those of its method, and the buffers grow with it. */
    method Add(m: string, key: string, data: D)
      requires Valid() && WellFormed(key)
      modifies this, stores.Values, owner.Keys
      ensures Valid() && forall k :: History(k) == old(History(k)) + if k == m then [Added(key, data)] else []
      ensures maxParams == if |Names(key)| > old(maxParams) then |Names(key)| else old(maxParams)
    {
      hide WellFormed, Names, Within, Indexes;
      var s := StoreFor(m);
      assert Holds(m);
      AddTo(m, s, key, data);
    }

    /** Add to a store that is there. */
    method AddTo(m: string, s: Store<D>, key: string, data: D)
      requires Valid() && m in stores && s == stores[m] && WellFormed(key)
      modifies this`owner, this`maxParams, s, s.root.Repr
      ensures Valid() && forall k :: History(k) == old(History(k)) + if k == m then [Added(key, data)] else []
      ensures maxParams == if |Names(key)| > old(maxParams) then |Names(key)| else old(maxParams)
    {
      hide WellFormed, Names, Within, Indexes, Store.Valid;
      Append(m, s, key, data);
      forall k | k in stores && k != m
        ensures Holds(k) && History(k) == old(History(k))
      {
        assert old(Holds(k));
        HoldsStill(k);
      }
    }

    /** The addition itself, and what it leaves alone. */
    method Append(m: string, s: Store<D>, key: string, data: D)
      requires Holds(m) && s == stores[m] && WellFormed(key)
      modifies this`owner, this`maxParams, s, s.root.Repr
      ensures Holds(m) && s.adds == old(s.adds) + [Added(key, data)]
      ensures maxParams == if |Names(key)| > old(maxParams) then |Names(key)| else old(maxParams)
      ensures forall n :: n in old(owner) ==> n in owner && owner[n] == old(owner[n])
    {
      hide WellFormed, Names, Within, Indexes;
      var n := s.Add(key, data);
      owner := owner + map k | k in s.root.Repr :: m;
      if n > maxParams {
        maxParams := n;
      }
      WithinMore(old(s.adds), Added(key, data), old(maxParams), maxParams);
    }

    /** `find`: the earliest route of the method that matches, or none; `ok` is false where the search
        panics on a buffer made before a route with more parameters was added. */
    method Find(re: Matcher, m: string, path: string, pvalues: array<string>)
        returns (ok: bool, data: Option<D>, pnames: seq<string>)
      requires Valid() && |History(m)| < MAX_INT32
      modifies pvalues
      ensures ok <==> m !in stores || !Overruns(re, stores[m].tree, path, pvalues.Length)
      ensures maxParams <= pvalues.Length ==> ok
      ensures ok ==>
        match Expected(re, History(m), path)
        case None => data == None && pnames == []
        case Some(h) =>
          data == Some(h.data) && pnames == h.names && |pnames| <= pvalues.Length && pvalues[..|pnames|] == h.values
      ensures !ok <==> exists key :: Leads(re, Stored(History(m)), key, path, pvalues.Length)
    {
      hide Overruns, Walks, Reached, FirstMatch, Names;
      ok, data, pnames := true, None, [];
      if m in stores {
        assert Holds(m);
        OverrunsIff(re, stores[m].tree, stores[m].adds, path, pvalues.Length);
        ghost var adds := History(m);
        ok, data, pnames := stores[m].Get(re, path, pvalues);
        assert History(m) == adds;
      }
    }
  }

  /** Build a URL for the `i`-th route of a method and look it up: unless an earlier route takes it,
      the lookup gives that route with the parameters the URL was built from. */
  method ThereAndBack<D(!new)>(
      re: Matcher, router: Router<D>, m: string, i: nat, route: Route, params: seq<string>, pvalues: array<string>)
    returns (built: Built, ok: bool, data: Option<D>, pnames: seq<string>)
    requires router.Valid()
    requires i < |router.History(m)| < MAX_INT32 && router.History(m)[i].key == route.path
    requires IsRoute(route) && Reversible(route.path)
    modifies pvalues
    ensures built == URLOf(re, route.path, params)
    ensures router.maxParams <= pvalues.Length ==> ok
    ensures ok && built.Url? && (forall j :: 0 <= j < i ==> Match(re, router.History(m)[j].key, built.url).None?) ==>
              && data == Some(router.History(m)[i].data) && pnames == route.names
              && |pnames| <= pvalues.Length && pvalues[..|pnames|] == params
  {
    hide URLOf, Match, Names, Overruns, Reversible, WellFormed, Expected, Segments, Texts, Patterns;
    ok, data, pnames := true, None, [];
    built := URLByIndex(re, route, params);
    if built.Url? {
      ghost var adds := router.History(m);
      if forall j :: 0 <= j < i ==> Match(re, adds[j].key, built.url).None? {
        BuiltIsFound(re, adds, i, params);
      }
      ok, data, pnames := router.Find(re, m, built.url, pvalues);
    }
  }
}
