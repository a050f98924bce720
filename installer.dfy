/** The installer (ddsnet4u.rb:145-155): each missing route is handed to the
    routing table's `add` once, in order, inside `begin/rescue`; a failure
    is counted in `route_errors` and does not stop the loop. */
module Installer {
  import opened Seqs
  import opened Routes

  /** Number of failed attempts among `outcomes` (true = added). */
  function Failures(outcomes: seq<bool>): (n: nat)
    ensures n <= |outcomes|
  {
    if outcomes == [] then 0
    else Failures(outcomes[..|outcomes| - 1]) + (if outcomes[|outcomes| - 1] then 0 else 1)
  }

  /** No failure was counted exactly when every attempt succeeded. */
  lemma {:induction false} NoFailuresIffAllAdded(outcomes: seq<bool>)
    ensures Failures(outcomes) == 0 <==> forall i :: 0 <= i < |outcomes| ==> outcomes[i]
  {
    if outcomes != [] {
      var n := |outcomes| - 1;
      NoFailuresIffAllAdded(outcomes[..n]);
      assert forall i :: 0 <= i < n ==> outcomes[..n][i] == outcomes[i];
    }
  }

  /** The routes whose attempt succeeded, in order. */
  function Succeeded(routes: seq<Route>, outcomes: seq<bool>): (r: seq<Route>)
    requires |routes| == |outcomes|
    ensures |r| + Failures(outcomes) == |routes|
    ensures forall x :: x in r ==> x in routes
    ensures Failures(outcomes) == 0 ==> r == routes
  {
    if routes == [] then []
    else
      var n := |routes| - 1;
      var front := Succeeded(routes[..n], outcomes[..n]);
      assert routes == routes[..n] + [routes[n]];
      if outcomes[n] then front + [routes[n]] else front
  }

  /** What one more attempt adds to the counts and the table. */
  lemma AttemptStep(inject: seq<Route>, i: nat, outcomes: seq<bool>, ok: bool)
    requires i < |inject| && |outcomes| == i
    ensures inject[..i + 1] == inject[..i] + [inject[i]]
    ensures Failures(outcomes + [ok]) == Failures(outcomes) + (if ok then 0 else 1)
    ensures PrefixesOf(Succeeded(inject[..i + 1], outcomes + [ok])) ==
      PrefixesOf(Succeeded(inject[..i], outcomes)) + (if ok then [inject[i].prefix] else [])
  {
    assert inject[..i + 1] == inject[..i] + [inject[i]];
    assert (outcomes + [ok])[..i] == outcomes;
  }

  /** The live routing table (`Net::IP.routes`), seen through the prefix
      strings of its routes. `attempts` records every route handed to
      `add`, whatever came of it. */
  class RouteTable {
    var prefixes: seq<string>
    ghost var attempts: seq<Route>

    constructor (live: seq<string>)
      ensures prefixes == live && attempts == []
    {
      prefixes := live;
      attempts := [];
    }

    /** `current_routes.add(route)`: the system may refuse the route (an
        exception in the source, `ok == false` here), in which case the
        table is unchanged; otherwise the route's prefix is now present. */
    method Add(route: Route) returns (ok: bool)
      modifies this
      ensures attempts == old(attempts) + [route]
      ensures prefixes == if ok then old(prefixes) + [route.prefix] else old(prefixes)
    {
      attempts := attempts + [route];
      ok :| true;
      if ok {
        prefixes := prefixes + [route.prefix];
      }
    }
  }

  /** The install loop: every route of `inject` is attempted exactly once,
      in order; `errors` is the number of attempts that failed; the table
      gains the prefixes of the routes that were added, in order. */
  method Install(table: RouteTable, inject: seq<Route>) returns (errors: nat, outcomes: seq<bool>)
    modifies table
    ensures |outcomes| == |inject|
    ensures errors == Failures(outcomes)
    ensures table.attempts == old(table.attempts) + inject
    ensures table.prefixes == old(table.prefixes) + PrefixesOf(Succeeded(inject, outcomes))
  {
    errors := 0;
    outcomes := [];
    var i := 0;
    while i < |inject|
      invariant 0 <= i <= |inject|
      invariant |outcomes| == i
      invariant errors == Failures(outcomes)
      invariant table.attempts == old(table.attempts) + inject[..i]
      invariant table.prefixes == old(table.prefixes) + PrefixesOf(Succeeded(inject[..i], outcomes))
    {
      var ok := table.Add(inject[i]);
      if !ok {
        errors := errors + 1;
      }
      AttemptStep(inject, i, outcomes, ok);
      outcomes := outcomes + [ok];
      i := i + 1;
    }
    assert inject[..i] == inject;
  }
}
