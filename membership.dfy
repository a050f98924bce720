/** Local membership (ddsnet4u.rb:48-61, 89-106): the host's address is the
    first IPv4 address of the interface, taken as a /32; the candidate
    subnets are the registry entries that include it; the chosen subnet is
    one with the longest mask among them, the longest-match rule of section
    5.2.4.3 of RFC 1812. */
module Membership {
  import opened IPv4
  import opened Results
  import opened Seqs
  import opened Registry

  /** An IPv4 interface address as the socket layer reports it; either part
      may be missing (nil). */
  datatype IfAddr = IfAddr(ip: Option<Addr>, netmask: Option<Addr>)

  predicate Readable(x: IfAddr) {
    x.ip.Some? && x.netmask.Some?
  }

  /** `ifaddr_to_ipaddr`: a missing address or netmask anywhere makes
      the call fail (a nil netmask raises at ddsnet4u.rb:52, a nil address
      makes the `return nil` at line 53 leave the whole method), and either
      way the run aborts; otherwise every address, as a host address, in
      order. The netmask is ignored. */
  function IfaddrToHosts(addrs: seq<IfAddr>): (r: Option<seq<Addr>>)
    ensures r.Some? <==> forall i :: 0 <= i < |addrs| ==> Readable(addrs[i])
    ensures r.Some? ==> |r.value| == |addrs|
    ensures r.Some? ==> forall i :: 0 <= i < |addrs| ==> r.value[i] == addrs[i].ip.value
  {
    if addrs == [] then Some([])
    else if !Readable(addrs[0]) then None
    else
      match IfaddrToHosts(addrs[1..])
      case None => None
      case Some(rest) => Some([addrs[0].ip.value] + rest)
  }

  /** ddsnet4u.rb:90-92: no address is fatal; an unreadable one makes
      `ifaddr_to_ipaddr` return nil, on which `.first` raises; otherwise
      the host address is the first one the interface reports. */
  function HostAddress(addrs: seq<IfAddr>): (r: Result<Addr>)
    ensures addrs == [] ==> r == Err(NoIPv4Address)
    ensures addrs != [] && (exists i :: 0 <= i < |addrs| && !Readable(addrs[i])) ==> r == Err(UnreadableAddress)
    ensures r.Ok? ==> addrs != [] && r.value == addrs[0].ip.value
    ensures r.Ok? <==> addrs != [] && forall i :: 0 <= i < |addrs| ==> Readable(addrs[i])
  {
    if addrs == [] then Err(NoIPv4Address)
    else
      match IfaddrToHosts(addrs)
      case None => Err(UnreadableAddress)
      case Some(hosts) => Ok(hosts[0])
  }

  /** ddsnet4u.rb:96: the registry entries whose prefix includes the host
      (as a /32), in registry order. */
  function Matches(registry: seq<Entry>, host: Addr): (r: seq<Entry>)
    ensures IsSubsequence(r, registry)
    ensures forall e :: e in r <==> e in registry && Includes(e.prefix, HostPrefix(host))
    ensures forall e :: multiset(r)[e] ==
                        if Includes(e.prefix, HostPrefix(host)) then multiset(registry)[e] else 0
  {
    if registry == [] then []
    else
      var rest := Matches(registry[1..], host);
      assert registry == [registry[0]] + registry[1..];
      if Includes(registry[0].prefix, HostPrefix(host)) then [registry[0]] + rest else rest
  }

  /** Over a normalized registry, an entry matches exactly when the host
      masked to the entry's length is the entry's network. */
  lemma MatchesByMask(registry: seq<Entry>, host: Addr)
    requires Normalized(registry)
    ensures forall e :: e in Matches(registry, host) <==>
      e in registry && Masked(host, e.prefix.len) == e.prefix.network
  {
    forall e | e in registry
      ensures Includes(e.prefix, HostPrefix(host)) <==> Masked(host, e.prefix.len) == e.prefix.network
    {
      IncludesHost(e.prefix, host);
    }
  }

  /** `e` is one of the longest-mask entries of `ms`. */
  predicate IsLongestMatch(e: Entry, ms: seq<Entry>) {
    e in ms && forall m :: m in ms ==> m.prefix.len <= e.prefix.len
  }

  /** A non-empty match list has a longest-mask entry (which of several
      equally long ones `sort_by(...).reverse.first` yields is not fixed). */
  lemma {:induction false} LongestMatchExists(ms: seq<Entry>)
    requires ms != []
    ensures exists e :: IsLongestMatch(e, ms)
  {
    if |ms| > 1 {
      LongestMatchExists(ms[1..]);
      var e :| IsLongestMatch(e, ms[1..]);
      assert ms == [ms[0]] + ms[1..];
      if ms[0].prefix.len > e.prefix.len {
        assert IsLongestMatch(ms[0], ms);
      } else {
        assert IsLongestMatch(e, ms);
      }
    } else {
      assert IsLongestMatch(ms[0], ms);
    }
  }

  /** The chosen subnet is the most specific: over a normalized registry,
      every other matching entry includes it. */
  lemma LongestIsMostSpecific(registry: seq<Entry>, host: Addr, chosen: Entry)
    requires Normalized(registry)
    requires IsLongestMatch(chosen, Matches(registry, host))
    ensures forall m :: m in Matches(registry, host) ==> Includes(m.prefix, chosen.prefix)
  {
    forall m | m in Matches(registry, host)
      ensures Includes(m.prefix, chosen.prefix)
    {
      Nested(chosen.prefix, m.prefix, host);
    }
  }
}
