/**
 * The allocator (`allocate` in vms/manage.py): validates a request against
 * the database and the host's CPU ceiling, then inserts one new record that
 * holds some free address id of the requested network.
 */
module Allocator {
  import opened Wrappers
  import opened Records
  import opened Topology
  import opened Pools

  /**
   * Why an allocation is refused. The source raises ValueError for a
   * duplicate name, too many vCPUs and exhaustion, and KeyError (from a
   * dict or set lookup) for an unknown host, a corrupt database and an
   * unknown network.
   */
  datatype AllocError =
    | DuplicateName(name: string)
    | UnknownHost(host: string)
    | CapacityExceeded(host: string, cores: int)
    | CorruptDatabase
    | UnknownNetwork(network: string)
    | Exhausted(network: string)

  /** A request that passes every check of `allocate` against database `db`. */
  predicate Admissible(db: Db, host: string, vmName: string, vcpus: int, network: string)
  {
    && vmName !in db
    && host in HOST_CPUS && vcpus <= HOST_CPUS[host]
    && Consistent(db)
    && network in AVAILABLE && FreeIds(db, network) != {}
  }

  /** The VM database, a dict that `allocate` updates in place. */
  class Database {
    var records: Db

    constructor (initial: Db)
      ensures records == initial
    {
      records := initial;
    }

    /**
     * `allocate(db, host, vm_name, ram, vcpus, disk, network)`. The checks run
     * in the source's order; a refused request leaves the records as they
     * were. Which free id is taken is not specified (`set.pop()`), only that
     * it was free.
     */
    method Allocate(host: string, vmName: string, ram: Amount, vcpus: int, disk: Amount, network: string)
      returns (outcome: Outcome<AllocError>)
      modifies this
      ensures outcome.Fail? ==> records == old(records)
      ensures vmName in old(records) ==> outcome == Fail(DuplicateName(vmName))
      ensures vmName !in old(records) && host !in HOST_CPUS ==> outcome == Fail(UnknownHost(host))
      ensures vmName !in old(records) && host in HOST_CPUS && vcpus > HOST_CPUS[host] ==>
                outcome == Fail(CapacityExceeded(host, HOST_CPUS[host]))
      ensures vmName !in old(records) && host in HOST_CPUS && vcpus <= HOST_CPUS[host] ==>
                && (!Consistent(old(records)) ==> outcome == Fail(CorruptDatabase))
                && (Consistent(old(records)) && network !in AVAILABLE ==> outcome == Fail(UnknownNetwork(network)))
                && (Consistent(old(records)) && network in AVAILABLE && FreeIds(old(records), network) == {} ==>
                      outcome == Fail(Exhausted(network)))
      ensures outcome.Pass? <==> Admissible(old(records), host, vmName, vcpus, network)
      ensures outcome.Pass? ==>
                && Consistent(old(records)) && network in AVAILABLE
                && exists id :: id in FreeIds(old(records), network)
                     && records == old(records)[vmName := Record(host, ram, vcpus, disk, Ip(network, id))]
      ensures outcome.Pass? ==> Consistent(records) && records.Keys == old(records).Keys + {vmName}
      ensures outcome.Pass? ==> |UsedIds(records, network)| == |UsedIds(old(records), network)| + 1
    {
      if vmName in records {
        return Fail(DuplicateName(vmName));
      }
      if host !in HOST_CPUS {
        return Fail(UnknownHost(host));
      }
      if vcpus > HOST_CPUS[host] {
        return Fail(CapacityExceeded(host, HOST_CPUS[host]));
      }
      var networks := AvailableAddrIds(records);
      if networks.None? {
        return Fail(CorruptDatabase);
      }
      if network !in networks.value {
        return Fail(UnknownNetwork(network));
      }
      var available := networks.value[network];
      if available == {} {
        return Fail(Exhausted(network));
      }
      var id :| id in available;
      var rec := Record(host, ram, vcpus, disk, Ip(network, id));
      InsertFreeId(records, vmName, rec);
      records := records[vmName := rec];
      outcome := Pass;
    }
  }

  /**
   * Ten public allocations into an empty database all succeed; an eleventh
   * finds the public pool (115..124) exhausted. The per-VM CPU check is the
   * only capacity check, so one host takes them all.
   */
  method ElevenPublicAllocations(db: Database, names: seq<string>) returns (outcomes: seq<Outcome<AllocError>>)
    requires db.records == map[]
    requires |names| == 11
    requires forall i, j :: 0 <= i < j < |names| ==> names[i] != names[j]
    modifies db
    ensures |outcomes| == 11
    ensures forall i :: 0 <= i < 10 ==> outcomes[i] == Pass
    ensures outcomes[10] == Fail(Exhausted("public"))
  {
    outcomes := [];
    var i := 0;
    while i < 11
      invariant 0 <= i <= 11 && |outcomes| == i
      invariant forall j :: 0 <= j < i && j < 10 ==> outcomes[j] == Pass
      invariant i == 11 ==> outcomes[10] == Fail(Exhausted("public"))
      invariant Consistent(db.records) && |UsedIds(db.records, "public")| == if i <= 10 then i else 10
      invariant forall j :: i <= j < 11 ==> names[j] !in db.records
    {
      PublicPoolExhaustion(db.records);
      var outcome := db.Allocate("ceto", names[i], Amount("GiB", 1), 1, Amount("G", 2), "public");
      outcomes := outcomes + [outcome];
      i := i + 1;
    }
  }
}
