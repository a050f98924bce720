/** The script body of ddsnet4u.rb (lines 83-157) as one run: build the
    registry, find the host address, pick the local subnet, compute the
    required routes, diff them against the live table, and, unless in no-op
    mode, install the missing ones. Configuration loading and option
    parsing are not part of this model: the declared subnets, the interface
    name, the interface's IPv4 addresses and the `--noop` option value are
    parameters. */
module Pipeline {
  import opened IPv4
  import opened Results
  import opened Registry
  import opened Membership
  import opened Routes
  import opened PrefixFormat
  import opened Installer

  /** How a run ends. */
  datatype Outcome =
    | Aborted(fault: Fault)
      // an exception ended the run before any route was added
    | NoMatch
      // the host is in no configured subnet (ddsnet4u.rb:100-103)
    | Planned(chosen: Entry, inject: seq<Route>)
      // no-op mode: the plan was computed and nothing was added (line 143)
    | Installed(chosen: Entry, inject: seq<Route>, outcomes: seq<bool>, errors: nat)
      // every missing route was attempted (lines 146-155)

  /** The value `--[no-]noop` stores: None when the option is absent,
      Some(true) for `--noop`, Some(false) for `--no-noop`. */
  type NoopOption = Option<bool>

  /** ddsnet4u.rb:28 and 143 as written: the option stores `[n]`, a
      one-element array, and every array is truthy, so any use of the
      option selects no-op mode. */
  function NoopAsWritten(opt: NoopOption): bool {
    opt.Some?
  }

  /** `--no-noop` yields an apply run although the option was given. */
  lemma NoNoopStillNoopAsWritten()
    ensures NoopAsWritten(Some(false)) && !Noop(Some(false))
  {
  }

  /** The evident intent: no-op mode exactly when `--noop` was given. */
  function Noop(opt: NoopOption): (on: bool)
    ensures on <==> opt == Some(true)
  {
    match opt
    case Some(n) => n
    case None => false
  }

  /** The process exit status as written: an exception exits 1, the two
      early exits 0, and after the install loop `exit 1 if route_errors`
      always exits 1, since 0 is truthy in Ruby. */
  function ExitCodeAsWritten(o: Outcome): int {
    match o
    case Aborted(_) => 1
    case NoMatch => 0
    case Planned(_, _) => 0
    case Installed(_, _, _, _) => 1
  }

  /** An install run in which every route was added still exits 1. */
  lemma FullSuccessFailsAsWritten(chosen: Entry, inject: seq<Route>, outcomes: seq<bool>)
    ensures ExitCodeAsWritten(Installed(chosen, inject, outcomes, 0)) == 1
    ensures ExitCode(Installed(chosen, inject, outcomes, 0)) == 0
  {
  }

  /** The evident intent: a run fails exactly when it aborted or some
      route could not be added. */
  function ExitCode(o: Outcome): (code: int)
    ensures code == 0 || code == 1
    ensures code == 0 <==> o.NoMatch? || o.Planned? || (o.Installed? && o.errors == 0)
  {
    match o
    case Aborted(_) => 1
    case NoMatch => 0
    case Planned(_, _) => 0
    case Installed(_, _, _, errors) => if errors > 0 then 1 else 0
  }

  /** The routes the run needs once `chosen` is the local subnet, through
      its gateway on the interface. */
  function RequiredViaGateway(registry: seq<Entry>, chosen: Entry, iface: string): seq<Route>
    requires chosen.meta.Some?
  {
    RequiredRoutes(registry, chosen, iface, Gateway(chosen.meta.value))
  }

  /** Running twice injects nothing the second time when the first run
      added every missing route: the table then holds every required
      prefix. */
  lemma FullInstallCoversRequired(required: seq<Route>, live: seq<string>, outcomes: seq<bool>)
    requires |outcomes| == |Missing(required, live)|
    requires Failures(outcomes) == 0
    ensures Missing(required, live + PrefixesOf(Succeeded(Missing(required, live), outcomes))) == []
  {
    SecondDiffEmpty(required, live);
  }

  /** A two-subnet registry: 10.0.0.0/16 through 10.0.0.1 and
      10.1.0.0/24 through 10.1.0.2. */
  function ExampleDecls(): seq<Declared> {
    [Declared(0x0A00_0000, 16, Some(map["gw" := "10.0.0.1"])),
     Declared(0x0A01_0000, 24, Some(map["gw" := "10.1.0.2"]))]
  }

  lemma ExampleRegistry()
    ensures Build(ExampleDecls()) == Ok([Entry(Prefix(0x0A00_0000, 16), ExampleDecls()[0].meta),
                                         Entry(Prefix(0x0A01_0000, 24), ExampleDecls()[1].meta)])
  {
    assert Pow2(8) == 0x100 && Pow2(16) == 0x1_0000;
    ClearLowMultiple(0x0A00, 16);
    ClearLowMultiple(0x0A_0100, 8);
    var decls := ExampleDecls();
    var tail := decls[1..];
    assert tail[1..] == [] && tail[0] == decls[1];
    var e0 := Entry(MakePrefix(decls[0].addr, decls[0].len), decls[0].meta);
    var e1 := Entry(MakePrefix(tail[0].addr, tail[0].len), tail[0].meta);
    assert e0.prefix == Prefix(0x0A00_0000, 16) && e1.prefix == Prefix(0x0A01_0000, 24);
    assert Build(tail) == Ok([e1] + []) && [e1] + [] == [e1];
    assert Build(decls) == Ok([e0] + [e1]) && [e0] + [e1] == [e0, e1];
  }

  lemma ExampleString()
    ensures PrefixString(Prefix(0x0A00_0000, 16)) == "10.0.0.0/16"
  {
  }

  /** A host at 10.1.0.5 with the two-subnet registry belongs to the /24 only,
      and needs one route, to 10.0.0.0/16 through the /24's gateway. */
  lemma TwoSubnetExample()
    ensures Build(ExampleDecls()).Ok?
    ensures var registry := Build(ExampleDecls()).value;
      Matches(registry, 0x0A01_0005) == [registry[1]] &&
      RequiredViaGateway(registry, registry[1], "eth0") == [Route("10.0.0.0/16", "eth0", Some("10.1.0.2"))]
  {
    ExampleRegistry();
    ExampleString();
    var registry := Build(ExampleDecls()).value;
    assert Span(16) == 0x1_0000 && Span(24) == 0x100;
    assert !Includes(registry[0].prefix, HostPrefix(0x0A01_0005));
    assert Includes(registry[1].prefix, HostPrefix(0x0A01_0005));
  }

  /** One run. The registry is built before the interface is consulted, so
      a bad configured length wins over an interface problem. Nothing is
      added to the table unless the run reaches the install loop; which of
      several equally long matches is chosen is left open. */
  method Run(decls: seq<Declared>, iface: string, ifaddrs: seq<IfAddr>, table: RouteTable, noopOpt: NoopOption)
    returns (outcome: Outcome)
    modifies table
    ensures !outcome.Installed? ==> table.prefixes == old(table.prefixes) && table.attempts == old(table.attempts)
    ensures Build(decls).Err? ==> outcome == Aborted(Build(decls).fault)
    ensures Build(decls).Ok? && HostAddress(ifaddrs).Err? ==> outcome == Aborted(HostAddress(ifaddrs).fault)
    ensures Build(decls).Ok? && HostAddress(ifaddrs).Ok? ==>
      var registry, host := Build(decls).value, HostAddress(ifaddrs).value;
      var matches := Matches(registry, host);
      (outcome == NoMatch <==> matches == []) &&
      (outcome.Aborted? ==> exists e :: IsLongestMatch(e, matches) && e.meta.None? && outcome.fault == MetadataMissing(e.prefix)) &&
      (outcome.Planned? || outcome.Installed? ==>
        IsLongestMatch(outcome.chosen, matches) && outcome.chosen.meta.Some? &&
        outcome.inject == Missing(RequiredViaGateway(registry, outcome.chosen, iface), old(table.prefixes))) &&
      (outcome.Planned? ==> Noop(noopOpt)) &&
      (outcome.Installed? ==> !Noop(noopOpt))
    ensures outcome.Installed? ==>
      |outcome.outcomes| == |outcome.inject| && outcome.errors == Failures(outcome.outcomes) &&
      table.attempts == old(table.attempts) + outcome.inject &&
      table.prefixes == old(table.prefixes) + PrefixesOf(Succeeded(outcome.inject, outcome.outcomes))
    ensures outcome.Installed? && outcome.errors == 0 ==>
      Missing(RequiredViaGateway(Build(decls).value, outcome.chosen, iface), table.prefixes) == []
  {
    var built := Build(decls);
    if built.Err? {
      return Aborted(built.fault);
    }
    var registry := built.value;
    var found := HostAddress(ifaddrs);
    if found.Err? {
      return Aborted(found.fault);
    }
    var host := found.value;
    var matches := Matches(registry, host);
    if matches == [] {
      return NoMatch;
    }
    LongestMatchExists(matches);
    var chosen :| chosen in matches && IsLongestMatch(chosen, matches);
    if chosen.meta.None? {
      return Aborted(MetadataMissing(chosen.prefix));
    }
    var inject := Missing(RequiredViaGateway(registry, chosen, iface), table.prefixes);
    if Noop(noopOpt) {
      return Planned(chosen, inject);
    }
    var errors, outcomes := Install(table, inject);
    if errors == 0 {
      FullInstallCoversRequired(RequiredViaGateway(registry, chosen, iface), old(table.prefixes), outcomes);
    }
    outcome := Installed(chosen, inject, outcomes, errors);
  }
}
