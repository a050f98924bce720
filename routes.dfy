/** Required routes and the diff against the live table
    (ddsnet4u.rb:109-139). Every registry entry other than the local subnet
    needs a route through the local subnet's gateway; a required route is
    missing when no route of the live table has its "net/len" string.
    Gateway and device are not compared. */
module Routes {
  import opened IPv4
  import opened Results
  import opened Seqs
  import opened Registry
  import opened PrefixFormat

  /** `Net::IP::Route.new(prefix:, dev:, via:)`; `via` is nil when the
      chosen subnet's metadata has no "gw". */
  datatype Route = Route(prefix: string, dev: string, via: Option<string>)

  /** `meta['gw']` (ddsnet4u.rb:110); a missing key gives nil, which is not
      checked. */
  function Gateway(meta: Meta): (r: Option<string>)
    ensures r.Some? <==> "gw" in meta
    ensures r.Some? ==> r.value == meta["gw"]
  {
    if "gw" in meta then Some(meta["gw"]) else None
  }

  /** ddsnet4u.rb:117: the registry without every entry whose network
      address equals the chosen one's. `IPAddr#==` compares the address and
      not the mask length, so an entry with the chosen network and another
      length is dropped as well. */
  function OtherSubnets(registry: seq<Entry>, chosen: Entry): (r: seq<Entry>)
    ensures IsSubsequence(r, registry)
    ensures forall e :: e in r <==> e in registry && e.prefix.network != chosen.prefix.network
    ensures forall e :: multiset(r)[e] ==
                        if e.prefix.network != chosen.prefix.network then multiset(registry)[e] else 0
  {
    if registry == [] then []
    else
      var rest := OtherSubnets(registry[1..], chosen);
      assert registry == [registry[0]] + registry[1..];
      if registry[0].prefix.network == chosen.prefix.network then rest else [registry[0]] + rest
  }

  /** ddsnet4u.rb:119-125: one route per subnet, in order, to its
      "net/len" through `via` on `dev`. */
  function RoutesFor(subnets: seq<Entry>, dev: string, via: Option<string>): (r: seq<Route>)
    ensures |r| == |subnets|
    ensures forall i :: 0 <= i < |r| ==> r[i].prefix == PrefixString(subnets[i].prefix)
    ensures forall i :: 0 <= i < |r| ==> r[i].dev == dev && r[i].via == via
  {
    if subnets == [] then []
    else [Route(PrefixString(subnets[0].prefix), dev, via)] + RoutesFor(subnets[1..], dev, via)
  }

  /** The routes the host should have once `chosen` is its subnet. */
  function RequiredRoutes(registry: seq<Entry>, chosen: Entry, dev: string, via: Option<string>): seq<Route> {
    RoutesFor(OtherSubnets(registry, chosen), dev, via)
  }

  /** `prefix` is the "net/len" of a registry entry outside the chosen
      network. */
  ghost predicate ToOtherSubnet(registry: seq<Entry>, chosen: Entry, prefix: string) {
    exists e :: e in registry && e.prefix.network != chosen.prefix.network && prefix == PrefixString(e.prefix)
  }

  /** Required routes: every one goes through the given device and gateway;
      there is one to every entry whose network differs from the chosen
      one; each is to such an entry; and none is to the chosen subnet, nor
      to any subnet sharing its network address. */
  lemma RequiredRoutesSpec(registry: seq<Entry>, chosen: Entry, dev: string, via: Option<string>)
    ensures var req := RequiredRoutes(registry, chosen, dev, via);
      (forall r :: r in req ==> r.dev == dev && r.via == via) &&
      (forall e :: e in registry && e.prefix.network != chosen.prefix.network ==>
         Route(PrefixString(e.prefix), dev, via) in req) &&
      (forall r :: r in req ==> ToOtherSubnet(registry, chosen, r.prefix)) &&
      (forall r, e :: r in req && e in registry && e.prefix.network == chosen.prefix.network ==>
         r.prefix != PrefixString(e.prefix)) &&
      (forall r :: r in req ==> r.prefix != PrefixString(chosen.prefix))
  {
    var others := OtherSubnets(registry, chosen);
    var req := RequiredRoutes(registry, chosen, dev, via);
    forall e | e in registry && e.prefix.network != chosen.prefix.network
      ensures Route(PrefixString(e.prefix), dev, via) in req
    {
      var i :| 0 <= i < |others| && others[i] == e;
      assert req[i] == Route(PrefixString(e.prefix), dev, via);
    }
    forall r | r in req
      ensures ToOtherSubnet(registry, chosen, r.prefix)
      ensures forall e :: e in registry && e.prefix.network == chosen.prefix.network ==>
        r.prefix != PrefixString(e.prefix)
      ensures r.prefix != PrefixString(chosen.prefix)
    {
      var i :| 0 <= i < |req| && req[i] == r;
      assert others[i] in others;
      forall e | e in registry && e.prefix.network == chosen.prefix.network
        ensures r.prefix != PrefixString(e.prefix)
      {
        PrefixStringInjective(others[i].prefix, e.prefix);
      }
      PrefixStringInjective(others[i].prefix, chosen.prefix);
    }
  }

  /** The "net/len" strings of a route list, in order. */
  function PrefixesOf(routes: seq<Route>): (r: seq<string>)
    ensures |r| == |routes|
    ensures forall i :: 0 <= i < |r| ==> r[i] == routes[i].prefix
  {
    if routes == [] then [] else [routes[0].prefix] + PrefixesOf(routes[1..])
  }

  /** ddsnet4u.rb:137-139: the required routes, in order, whose prefix
      string is the prefix of no route of the live table. */
  function Missing(required: seq<Route>, live: seq<string>): (r: seq<Route>)
    ensures IsSubsequence(r, required)
    ensures forall x :: x in r <==> x in required && x.prefix !in live
    ensures forall x :: multiset(r)[x] == if x.prefix !in live then multiset(required)[x] else 0
  {
    if required == [] then []
    else
      var rest := Missing(required[1..], live);
      assert required == [required[0]] + required[1..];
      if required[0].prefix in live then rest else [required[0]] + rest
  }

  /** When the live table already has every required prefix, whatever its
      gateways and devices, nothing is missing. */
  lemma {:induction false} NothingMissingWhenCovered(required: seq<Route>, live: seq<string>)
    requires forall x :: x in required ==> x.prefix in live
    ensures Missing(required, live) == []
  {
    if required != [] {
      assert required[0] in required;
      NothingMissingWhenCovered(required[1..], live);
    }
  }

  /** Reconciling is idempotent: once every missing route has been added to
      the table, a second diff finds nothing missing. */
  lemma SecondDiffEmpty(required: seq<Route>, live: seq<string>)
    ensures Missing(required, live + PrefixesOf(Missing(required, live))) == []
  {
    var added := Missing(required, live);
    var after := live + PrefixesOf(added);
    forall x | x in required
      ensures x.prefix in after
    {
      if x.prefix !in live {
        var i :| 0 <= i < |added| && added[i] == x;
        assert PrefixesOf(added)[i] == x.prefix;
      }
    }
    NothingMissingWhenCovered(required, after);
  }
}
