# ddsnet4u route reconciliation, modelled in Dafny

`ddsnet4u.rb` keeps a host that sits in one of several configured private
subnets reachable from all the others. It reads a registry of subnets
(`"a.b.c.d/len" => { gw: ... }`), takes the first IPv4 address of a named
interface as a /32, and picks the configured subnet holding that address
that has the longest mask (the longest-match rule of section 5.2.4.3 of
RFC 1812, over CIDR prefixes as in section 3.1 of RFC 4632). It then wants a
route to every other configured subnet through the chosen subnet's gateway.
It drops the required routes whose "net/len" string already appears in the
live routing table. Unless in no-op mode, it adds the rest one at a time and
counts the failures.

This project models that pipeline and proves its properties:

- `ipv4.dfy` (module `IPv4`): addresses as integers below 2^32, mask
  lengths 0..32, and `a & mask(len)` written out as clearing the low
  32 - len bits one at a time (`ClearLow`). `IPAddr#include?` is range
  inclusion (`Includes`), and it is proved equal to the mask test for a /32.
- `prefix_format.dfy` (`PrefixFormat`): the "net/len" rendering, with a proof
  that it is injective, so comparing prefix strings is comparing prefixes.
- `results.dfy` (`Results`): nil as `Option`, and the fatal exceptions as
  `Fault`.
- `seqs.dfy` (`Seqs`): order-preserving subsequences, the shape of Ruby's
  `filter` and `reject`.
- `registry.dfy` (`Registry`): the registry conversion.
- `membership.dfy` (`Membership`): host address, matching, longest match.
- `routes.dfy` (`Routes`): required routes and the diff against the table.
- `installer.dfy` (`Installer`): the routing table as a class whose `Add`
  may fail, and the install loop with its error counter.
- `pipeline.dfy` (`Pipeline`): one whole run, its outcome and exit status,
  and a worked two-subnet registry (10.0.0.0/16 and 10.1.0.0/24).

Inputs that the script gets from the system are parameters: the declared
subnets (in the configuration mapping's iteration order), the interface
name, the interface's IPv4 addresses, the prefix strings of the live routing
table, and the value of the `--[no-]noop` option. Whether a route insertion
fails is left open: `RouteTable.Add` chooses its outcome arbitrarily.

The model follows the code in these details, which a reader might not
expect:

- Duplicate prefixes are not merged. Two keys such as "10.0.0.1/16" and
  "10.0.0.0/16" are distinct strings, so both become entries with the same
  prefix.
- An empty subnet mapping (`subnets: {}`) is not fatal. Once the interface
  has a readable IPv4 address, it yields no match and a successful early
  exit. Without one, the run aborts at ddsnet4u.rb:90-92 as for any
  registry. A `subnets:` key with no value is YAML null, which raises at
  ddsnet4u.rb:81 and is outside the model.
- The required routes leave out every entry whose network address equals the
  chosen one's, whatever its mask length. `IPAddr#==` ignores the mask.
- A chosen subnet without "gw" is not fatal. Its routes carry a nil gateway
  (`via == None`). Among the modelled metadata values (mappings and null),
  only null raises. Other YAML values, such as a list or a boolean, also
  raise at ddsnet4u.rb:110 but are not modelled.
- Among equally long matches the winner is unspecified. `sort_by` is not
  stable, so "the last declared wins" is not guaranteed. `Run` may pick any
  of them, and no lemma depends on which.

## Model

| member | source | states |
|---|---|---|
| `IPv4.Masked` | ddsnet4u.rb:86 | `a & mask(len)` is at most `a`, and `a` lies less than 2^(32-len) above it: the block that starts there holds `a` |
| `IPv4.MaskedAligned` | ddsnet4u.rb:86 | `a & mask(len)` is `a` rounded down to a multiple of 2^(32-len), so the block is aligned |
| `IPv4.MakePrefix` | ddsnet4u.rb:86 | `IPAddr.new(key)` keeps the declared length, clears the host bits, and the declared address lies inside the result |
| `IPv4.HostPrefix` | ddsnet4u.rb:58-60 | an interface address as a /32: a normal prefix covering exactly that address |
| `IPv4.IncludesHost` | ddsnet4u.rb:96 | for a normal prefix, range inclusion of the /32 host holds iff (host & mask(len)) == network |
| `IPv4.Nested` | ddsnet4u.rb:105-106 | two normal prefixes that include the same host are nested: the shorter includes the longer |
| `PrefixFormat.PrefixStringInjective` | ddsnet4u.rb:63-69 | two prefixes give the same "net/len" string iff they are equal |
| `Registry.Build` | ddsnet4u.rb:83-86 | fails iff some declared length exceeds 32, with the first such length; otherwise one entry per declared key, in order, network = address masked to the length, metadata unchanged, all normal |
| `Membership.IfaddrToHosts` | ddsnet4u.rb:48-61 | fails (line 52 raises or line 53 returns nil) iff some address or netmask is missing; otherwise every address in order, netmask ignored |
| `Membership.HostAddress` | ddsnet4u.rb:89-92 | no address raises NoIPv4Address; any unreadable one raises; otherwise the host is the first address |
| `Membership.Matches` | ddsnet4u.rb:96 | an order-preserving subsequence of the registry holding exactly the entries that include the host, each as many times as the registry does |
| `Membership.MatchesByMask` | ddsnet4u.rb:96 | over a normalized registry, an entry matches iff (host & mask(len)) == network |
| `Membership.LongestMatchExists` | ddsnet4u.rb:100-106 | a non-empty match list has an entry whose length is at least every match's length |
| `Membership.LongestIsMostSpecific` | ddsnet4u.rb:105-106 | every matching entry includes the chosen longest match |
| `Routes.Gateway` | ddsnet4u.rb:110 | the chosen subnet's gateway: the value of "gw" when the metadata has that key, nil (`None`) when it does not |
| `Routes.OtherSubnets` | ddsnet4u.rb:117 | an order-preserving subsequence of the registry holding exactly the entries whose network differs from the chosen one's, each as many times as the registry does |
| `Routes.RoutesFor` | ddsnet4u.rb:119-125 | one route per subnet, in order, to its "net/len", through the given gateway and device |
| `Routes.RequiredRoutesSpec` | ddsnet4u.rb:117-125 | every required route uses the interface and the chosen gateway; each entry with another network gets one; each route goes to such an entry; no route goes to the chosen subnet or to any entry sharing its network |
| `Routes.Missing` | ddsnet4u.rb:137-139 | an order-preserving subsequence of the required routes holding exactly those whose prefix string is absent from the table, duplicates included as often as they are required; gateway and device are not compared |
| `Routes.NothingMissingWhenCovered` | ddsnet4u.rb:134-139 | if the table holds every required prefix, nothing is missing |
| `Routes.SecondDiffEmpty` | ddsnet4u.rb:137-139 | once the missing prefixes are added to the table, a second diff is empty |
| `Installer.NoFailuresIffAllAdded` | ddsnet4u.rb:146-155 | the failure count is zero iff every attempt succeeded |
| `Installer.RouteTable.constructor` | ddsnet4u.rb:130 | the table starts as the live prefixes, with no attempts made |
| `Installer.RouteTable.Add` | ddsnet4u.rb:149 | every call is recorded as an attempt; on success the route's prefix is appended to the table, on failure the table is unchanged |
| `Installer.Install` | ddsnet4u.rb:146-155 | each route is attempted exactly once, in order, with one outcome per route; the error count equals the number of failed attempts; the table gains the prefixes of the added routes, in order |
| `Pipeline.Noop` | ddsnet4u.rb:27-29 | intended no-op mode: on iff `--noop` was given |
| `Pipeline.NoNoopStillNoopAsWritten` | ddsnet4u.rb:143 | as written, `--no-noop` still selects no-op mode |
| `Pipeline.ExitCode` | ddsnet4u.rb:157 | intended exit status: 0 iff no match, no-op, or an install with zero errors; 1 otherwise |
| `Pipeline.FullSuccessFailsAsWritten` | ddsnet4u.rb:157 | as written, an install with zero errors exits 1, where 0 is intended |
| `Pipeline.FullInstallCoversRequired` | ddsnet4u.rb:134-155 | after an install with no failures, a second run finds nothing missing |
| `Pipeline.ExampleRegistry` | ddsnet4u.rb:86 | the keys "10.0.0.0/16" and "10.1.0.0/24" become the prefixes 10.0.0.0/16 and 10.1.0.0/24 |
| `Pipeline.ExampleString` | ddsnet4u.rb:63-65 | 10.0.0.0/16 renders as "10.0.0.0/16" |
| `Pipeline.TwoSubnetExample` | ddsnet4u.rb:92-125 | host 10.1.0.5 matches only the /24 and needs one route: to 10.0.0.0/16 on the interface through 10.1.0.2 |
| `Pipeline.Run` | ddsnet4u.rb:83-157 | a bad length or an interface problem aborts; no match ends the run iff nothing matches; otherwise the chosen subnet is a longest match; missing metadata on it aborts; the plan is the diff of its required routes against the table; no-op mode stops there; otherwise the install loop runs; nothing is attempted or added unless the loop runs; after an install with no failures nothing is missing |

## Findings

| source | as written | input that shows it | evidently intended | confidence | as-written member | corrected member |
|---|---|---|---|---|---|---|
| ddsnet4u.rb:157 | `exit 1 if route_errors` exits 1 after every install, because 0 is truthy in Ruby | an apply run in which every route is added (`route_errors == 0`) | exit 1 only when some insertion failed | high; not executed | `Pipeline.ExitCodeAsWritten`, `Pipeline.FullSuccessFailsAsWritten` | `Pipeline.ExitCode` |
| ddsnet4u.rb:28 | `options[:noop] = [n]` stores a one-element array, which is always truthy at line 143 | `--no-noop` (n = false) | no-op mode only for `--noop` | high; not executed | `Pipeline.NoopAsWritten`, `Pipeline.NoNoopStillNoopAsWritten` | `Pipeline.Noop` |

`Pipeline.Run` takes the option value and uses the corrected `Noop`. A run's
status is given by the corrected `ExitCode`.

## Left out

- Command-line parsing (ddsnet4u.rb:17-36): I/O plumbing. Only the
  truthiness of the stored `--noop` value is modelled, as a finding.
- Configuration search, readability checks and YAML loading
  (ddsnet4u.rb:10-15, 72-81): filesystem and library calls. The interface
  name and the subnet mapping are parameters. The exceptions for a missing
  "interface" or "subnets" key are therefore not modelled.
- Interface enumeration (`Socket.getifaddrs` and IPv4 filtering,
  ddsnet4u.rb:38-43): an OS call. The interface's IPv4 addresses are an
  input sequence in the order the OS reports them.
- `IPAddr` parsing of the dotted quad in a configured key: library code. A
  key arrives as its address and length. Only the rejection of a length
  over 32 is modelled; a malformed address string is not.
- `Net::IP` (ddsnet4u.rb:120, 130, 149): library code. The live table is
  its routes' prefix strings, and a route is a record of prefix, device and
  gateway. `add` either appends the route's prefix or fails. The reasons
  the system refuses a route are not modelled.
- SecondDiffEmpty, FullInstallCoversRequired: the second-run property rests
  on the assumption that `Net::IP.routes` lists an added route under the
  same "net/len" string that the diff at ddsnet4u.rb:137-139 compares (the
  /32 and /0 routes are the obvious edge). How the system reports its
  routes is foreign behaviour and is not shown.
- Metadata values other than string-to-string mappings (other YAML types):
  library behaviour. Only the "gw" lookup and a null value are modelled.
- All `puts` reporting and the process exit mechanics: output only.
  `ExitCode` gives the status a run should end with.
- IPv6 interface addresses: filtered out at ddsnet4u.rb:42 before the core
  runs.
- IPv6 subnet keys: configured keys are assumed to be IPv4. An IPv6 key
  (say "fd00::/64") would pass `IPAddr.new` at ddsnet4u.rb:86 with a length
  up to 128. It would never match the IPv4 host at line 96, be kept by the
  `reject` at line 117, and get a route through the IPv4 gateway at lines
  119-125. None of this is modelled: `Declared.addr` is an IPv4 address, and
  `Build` rejects every length over 32.
- Run: does not fix which of several equally long matches is chosen,
  because `sort_by` at ddsnet4u.rb:106 is not stable and the source makes no
  promise about it.
- Run: reads the `--[no-]noop` value through the corrected `Noop`, so
  `--no-noop` installs routes; as written (ddsnet4u.rb:28, 143) it stops
  after the plan and exits 0. `NoNoopStillNoopAsWritten` states that
  behaviour.
- RouteTable.Add: which insertions fail is not modelled; each call may fail.
