# VM allocation and addressing model (vms/manage.py)

A Dafny model of the core of `vms/manage.py`, the tool that keeps a small
fleet's virtual machines in a database. Each record maps a VM name to its
host, RAM, vCPU count, disk and an `ip` pair. The pair is a network class
("public" or "private") plus an address id. The model covers:

- the static tables: `AVAILABLE` (the id range of each network class),
  `HOST_NETWORKS` (each host's three link templates) and `HOST_CPUS` (the
  per-VM vCPU ceiling of each host). See `Topology.dfy`. `HOST_NETWORKS`
  is the table exactly as the program has it. `HOST_NETWORKS_CORRECTED`
  differs from it only in phorcys' private IP pattern (see Findings).
  `Expand.ExpandConfig` runs on the program's table and
  `Expand.ExpandConfigCorrected` on the corrected one.
- `available_addr_ids`, which computes the free ids of each class by
  removing every id the database holds from the full ranges. It is a loop
  over the records (`Pools.AvailableAddrIds`), proved against the set
  difference `FreeIds`.
- `allocate`, which validates a request and inserts one record in place
  (`Allocator.Database.Allocate`). The record holds some free id; which one
  is deliberately left unspecified, because the source takes it with
  `set.pop()`.
- `expand_config`, which resolves a record into its ordered interfaces
  with MAC and IP addresses (`Expand.ExpandWith`).
- The `'{0:02X}'` and `'{0:d}'` renderings those addresses use, and
  Python's `int()` on digit strings (`Format.dfy`).
- `parse_amount_units` and the `--ram` / `--disk` converters built on it
  (`Units.dfy`).

Errors are values. `available_addr_ids` raises `KeyError` exactly on
databases that are not `Consistent`: a record on an unknown network, an id
outside its range, or two records sharing an `ip` pair. It returns `None`
on those. `allocate` returns `Fail(e)` with one constructor per raised
exception, in the order the source checks them. `expand_config` returns
`Failure` for an unknown host and for the `assert False` branch.

The main properties proved:

- Availability is exactly the range minus the used ids.
- Allocation keeps the database consistent and uses up exactly one free id.
- Ten public VMs exhaust the public pool, so an eleventh allocation fails.
- Over a consistent database, every expanded interface has a distinct MAC
  address, on the program's table. IP addresses are distinct only on the
  corrected table; see Findings.
- Each address ends in the id, and the id can be read back from it.
- The amount parser is characterized in both directions, does not depend
  on the order in which it visits the unit set, and round-trips.

## Model

| member | source | states |
|---|---|---|
| Topology.RangeSize | vms/manage.py:22-23 | `set(range(lo, hi + 1))` holds hi - lo + 1 ids |
| Topology.PublicPoolSize | vms/manage.py:22 | the public pool 115..124 holds ten ids |
| Topology.PoolIdsAreOctets | vms/manage.py:21-24 | every pool id is in 0..255, so it fits a MAC octet and an IPv4 octet |
| Format.HexDigits | vms/manage.py:27 | the hex spelling is non-empty, uses only upper-case hex digits, and is one digit long iff n < 16 |
| Format.DecDigits | vms/manage.py:27 | the decimal spelling is non-empty and uses only digits |
| Format.HexDigitsRoundTrip | vms/manage.py:27 | reading the hex spelling of n gives back n |
| Format.DecDigitsRoundTrip | vms/manage.py:27 | reading the decimal spelling of n gives back n |
| Format.FormatHex02 | vms/manage.py:27-34 | `'{0:02X}'` is at least two characters; a non-negative id renders as hex digits only, a negative one as '-' followed by hex digits |
| Format.FormatDecimal | vms/manage.py:27-34 | `'{0:d}'` of a non-negative id is a non-empty digit string; a negative one is '-' followed by one |
| Format.ParseHex | vms/manage.py:27 | the hex reader accepts exactly the non-empty strings of upper-case hex digits |
| Format.ParseDigits | vms/manage.py:248 | the digit reader accepts exactly the non-empty strings of decimal digits |
| Format.ParseInt | vms/manage.py:248 | the `int()` model accepts exactly an optional '+' or '-' followed by a non-empty digit string, and yields a negative number only after a '-' |
| Format.Hex02RoundTrip | vms/manage.py:27-34 | `'{0:02X}'` of a non-negative id is all hex digits, is two characters long below 256, and reads back as the id |
| Format.DecimalRoundTrip | vms/manage.py:27-34 | `int()` of `'{0:d}'.format(n)` is n, for negative n too |
| Format.RenderingsInjective | vms/manage.py:27-34 | different non-negative ids render to different hex octets and to different decimal octets |
| Pools.AvailableAddrIds | vms/manage.py:45-52 | returns normally iff the database is consistent; the result has one entry per network class, and each entry is that class's range minus the ids the records hold |
| Pools.RemoveFailsOnlyIfInconsistent | vms/manage.py:49-50 | `networks[network].remove(addr_id)` (or the `networks[network]` lookup) raises only if the database is not consistent |
| Pools.RemoveStep | vms/manage.py:48-50 | one loop iteration keeps each pool equal to the range minus the ids of the records visited so far |
| Pools.UsedIdsAmongStep | vms/manage.py:48-50 | visiting one more record adds exactly its id to its network's used set |
| Pools.FreeIdHasNoHolder | vms/manage.py:61-67 | no record holds a free id |
| Pools.UsedIdsAmongFrame | vms/manage.py:48-50 | the used ids of a set of names depend only on those names' records |
| Pools.InsertUsedId | vms/manage.py:69-75 | storing a new record adds exactly its id to its network's used set and leaves other networks unchanged |
| Pools.InsertFreeIdConsistent | vms/manage.py:61-75 | storing a record under a new name with a free id keeps the database consistent |
| Pools.InsertFreeId | vms/manage.py:61-75 | storing a record with a free id keeps consistency, removes exactly that id from its network's free set, and raises the used count by one |
| Pools.UsedIdsWithinPool | vms/manage.py:21-24 | a consistent database holds only ids from the configured ranges |
| Pools.PublicPoolExhaustion | vms/manage.py:61-67 | at most ten public ids are in use, and the public free set is empty iff exactly ten are |
| Allocator.Database.Allocate | vms/manage.py:54-75 | the error cases, in the source's order: duplicate name, unknown host (the `HOST_CPUS` lookup), too many vCPUs (reporting the host's core count), `available_addr_ids` raising, unknown network, exhausted pool. A refusal changes nothing. Success happens iff the request is admissible, and then stores exactly one new record holding some id from the free set. The database stays consistent, gains exactly the new name, and its network uses one more id |
| Allocator.ElevenPublicAllocations | vms/manage.py:61-67 | ten public allocations on an empty database succeed; the eleventh fails with the public network exhausted |
| Expand.HostTablesWellFormed | vms/manage.py:25-36 | every host of both tables has all three link keys |
| Expand.LinkKeyInjective | vms/manage.py:90-93 | device 0/1 of a public VM and device 0 of a private VM use the links pubpriv, public and private, one each |
| Expand.InstantiateCarriesId | vms/manage.py:81-88 | an interface takes the template's bridge; its MAC and IP start with the template's prefix and end in the rendered id, which reads back as the id |
| Expand.Instantiate | vms/manage.py:81-88 | the nested `interface(dev, key)`; no contract of its own: `Expand.InstantiateCarriesId` states what it builds |
| Expand.ExpandWith | vms/manage.py:77-104 | `expand_config` on a given host table: fails on an unknown host (the `KeyError`), then on a class other than public or private (the `assert False`); succeeds iff neither applies; on success copies host, name, RAM, vCPUs and disk unchanged and gives a public VM two interfaces and a private VM one |
| Expand.ExpandConfig | vms/manage.py:77-104 | `expand_config` on the program's table: succeeds exactly for hosts ceto and phorcys and the classes public and private |
| Expand.ExpandConfigCorrected | vms/manage.py:77-104 | the same on the corrected table: succeeds exactly for hosts ceto and phorcys and the classes public and private |
| Expand.ExpandedInterfaces | vms/manage.py:81-95 | a public VM gets two interfaces and a private VM one; device i is the host's link for (class, i), filled in with the record's id |
| Expand.CetoPublicExample | vms/manage.py:25-29 | on the program's table, public id 5 on ceto expands to br1 `52:54:01:01:01:05` / `10.0.1.5` and br0 `52:54:01:00:00:05` / `164.39.7.5`, in that order |
| Expand.AllocatedRecordExpands | vms/manage.py:77-95 | on the program's table, a record `allocate` can store (a known host, a known network) always expands, with 2 or 1 interfaces |
| Expand.SamePrefixSameKey | vms/manage.py:25-36 | on a table that separates links, prefixes end in the separator, and equal prefixes belong to the same link key |
| Expand.SplitAtLastSeparator | vms/manage.py:27-34 | a prefix ending in the octet separator, followed by a rendering without one, splits back uniquely |
| Expand.RenderedId | vms/manage.py:27-34 | a rendered id contains no octet separator, and different ids render differently |
| Expand.AddressOf | vms/manage.py:81-88 | an interface's address is its link's prefix followed by the rendered id |
| Expand.AddressesDistinct | vms/manage.py:81-93 | on a table that separates links, two expanded interfaces of a consistent database share an address iff they are the same device of the same VM |
| Expand.HostsFromSeparateLinks | vms/manage.py:25-36 | a table whose every host has one of two link maps separates links when those maps' prefixes end in the separator and no differently keyed links of them share a prefix |
| Expand.TwoHostsSeparateLinks | vms/manage.py:25-36 | a two-host table separates links when each host's prefixes end in the separator and no two differently keyed links share a prefix |
| Expand.HostNetworksMacsSeparateLinks | vms/manage.py:25-36 | the MAC prefixes of the program's table separate links |
| Expand.CorrectedTableSeparatesLinks | vms/manage.py:25-36 | the MAC and IP prefixes of the corrected table separate links |
| Expand.InterfaceMacsUnique | vms/manage.py:77-104 | on the program's table, over a consistent database, two interfaces share a MAC iff they are the same device of the same VM |
| Expand.MacLastOctet | vms/manage.py:27-34 | a MAC prefix ending in ':' followed by `'{0:02X}'` of an octet ends in ':' and two hex digits that read back as the octet |
| Expand.MacOctetOn | vms/manage.py:81-88 | on a table whose MAC prefixes separate links, an interface of a record holding an octet id has a MAC ending in ':' and two hex digits that read back as the id |
| Expand.AllocatedMacOctet | vms/manage.py:21-34 | on the program's table, every interface of a record holding a pool id has a MAC whose last octet is two hex digits after a ':', reading back as the id |
| Expand.InterfaceAddressesUnique | vms/manage.py:77-104 | on the corrected table, over a consistent database, two interfaces share a MAC iff they are the same device of the same VM; the same holds for IPs |
| Expand.PhorcysIpCollisionAsWritten | vms/manage.py:31-34 | on the program's table, a consistent database holding a public and a private phorcys VM at id 115 gives both device-0 interfaces the IP 10.0.2.115 |
| Units.EndsWith | vms/manage.py:247 | `s.endswith(u)` holds iff s is some string followed by u |
| Units.DropSuffix | vms/manage.py:248 | `s[:-len(u)]` followed by a non-empty u gives back s |
| Units.ParseWithUnit | vms/manage.py:248-251 | once a unit matches, the result succeeds iff the text before the unit reads as a positive integer; a success carries that unit and amount |
| Units.ParseAmountUnits | vms/manage.py:245-253 | a success carries an allowed unit that ends the text, preceded by a positive integer; the result is "no unit" iff no allowed unit ends the text |
| Units.MatchedUnitDecides | vms/manage.py:246-251 | with suffix-free units, the one unit that ends the text decides the result, wherever it is listed |
| Units.ParseAmountUnitsSpec | vms/manage.py:245-253 | both directions: parsing yields amount a iff a's unit is allowed and ends the text, and a positive a.amt is written before it |
| Units.OrderIndependent | vms/manage.py:246 | any two listings of the same suffix-free unit set give the same result |
| Units.RoundTrip | vms/manage.py:245-251 | a positive amount in decimal followed by an allowed unit parses back to that amount and unit |
| Units.UnitSetsSuffixFree | vms/manage.py:255-260 | neither `{"GiB", "MiB"}` nor `{"G", "M"}` has a unit that ends another |
| Units.Ram | vms/manage.py:255 | an accepted `--ram` value has unit GiB or MiB and a positive amount |
| Units.Disk | vms/manage.py:260 | an accepted `--disk` value has unit G or M and a positive amount |
| Units.DiskDefaultParses | vms/manage.py:274 | the `--disk` default "2G" reads as 2 G |
| Units.RamExampleParses | vms/manage.py:255 | "4GiB" reads as 4 GiB |
| Units.RejectedAmounts | vms/manage.py:248-253 | "0GiB" is refused as not positive, "2T" as having no unit, "xG" as not a number |

## Left out

- `domain_xml` and `dnsmasq_file` are not modelled. They render Jinja templates, and the templates are not part of this model.
- `create`, `need_root` and `check_call` are not modelled. They start processes and call libvirt.
- `sync_dnsmasq` is not modelled. It writes a file and restarts a service.
- `read_db` and `change_db` are not modelled: they do YAML file I/O. The whole database is the `Db` value or the `Database.records` field. The model has no file lock and no concurrent writers.
- The `cmd_*` handlers and the argparse setup are not modelled. These are I/O glue; only the `--ram` and `--disk` converters are modelled. This leaves out two defects of that glue:
  - the `vcpus` converter returns `None` for every input;
  - `cmd_list` calls an undefined `config_for`.
- Format.ParseInt: does not model the whitespace, underscores and non-ASCII digits that Python's `int()` also accepts. Only ASCII digits with an optional sign are read.
- Units.ParseAmountUnits: the unit set is taken as a list in the order the loop visits it. Python's set order is not modelled; `Units.OrderIndependent` shows that it does not matter for the two unit sets used.
- Allocator.Database.Allocate: `set.pop()` picks an unspecified element. The model picks any free id, so no particular order of ids is promised.
- `expand_config` is the same on every call. This holds by construction, because `Expand.ExpandWith` is a function; there is no lemma for it.

## Findings

| source | as written | input that shows it | evidently intended | confidence | as-written member | corrected member |
|---|---|---|---|---|---|---|
| vms/manage.py:33-34 | phorcys' `pubpriv` and `private` links both use the IP pattern `10.0.2.{0:d}` | a consistent database holding a public VM and a private VM on phorcys, both with address id 115: both device-0 interfaces get the IP 10.0.2.115 | `private` on `10.0.4.{0:d}`, matching its MAC pattern `52:54:02:01:04` and ceto's layout (`01:03` with `10.0.3`), so that every interface has its own IP | medium, not executed | Expand.PhorcysIpCollisionAsWritten | Expand.InterfaceAddressesUnique |
