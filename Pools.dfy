/**
 * The address pool (`available_addr_ids` in vms/manage.py): the ids still
 * free in each network class are the full range minus the ids the
 * database's records already hold. The database is the only source of truth;
 * nothing else remembers which ids are taken.
 */
module Pools {
  import opened Wrappers
  import opened Records
  import opened Topology

  /** The address ids that the records named in `names` hold on network `n`. */
  function UsedIdsAmong(db: Db, names: set<string>, n: string): (ids: set<int>)
  {
    set k | k in names && k in db && db[k].ip.network == n :: db[k].ip.addrId
  }

  /** The address ids the database holds on network `n`. */
  function UsedIds(db: Db, n: string): (ids: set<int>)
  {
    UsedIdsAmong(db, db.Keys, n)
  }

  /**
   * The records named in `names` sit on a configured network, hold an id of
   * that network's range, and no two of them share an `ip` pair.
   */
  predicate ConsistentAmong(db: Db, names: set<string>)
  {
    && (forall k :: k in names && k in db ==>
          db[k].ip.network in AVAILABLE && db[k].ip.addrId in AVAILABLE[db[k].ip.network])
    && (forall k1, k2 :: k1 in names && k2 in names && k1 in db && k2 in db && k1 != k2 ==>
          db[k1].ip != db[k2].ip)
  }

  /**
   * The databases on which `available_addr_ids` returns normally: on any
   * other, one of its `networks[network].remove(addr_id)` raises KeyError.
   * This is also the invariant "no id is used twice within a network and
   * every id comes from its network's range".
   */
  predicate Consistent(db: Db)
  {
    ConsistentAmong(db, db.Keys)
  }

  /** The ids of network `n` that no record holds. */
  function FreeIds(db: Db, n: string): (ids: set<int>)
    requires n in AVAILABLE
  {
    AVAILABLE[n] - UsedIds(db, n)
  }

  lemma UsedIdsAmongStep(db: Db, names: set<string>, name: string, n: string)
    requires name in db
    ensures UsedIdsAmong(db, names + {name}, n)
         == UsedIdsAmong(db, names, n) + (if db[name].ip.network == n then {db[name].ip.addrId} else {})
  {
  }

  /** An id missing from the used set of its network is held by none of the records. */
  lemma FreeIdHasNoHolder(db: Db, names: set<string>, ip: Ip)
    requires ip.addrId !in UsedIdsAmong(db, names, ip.network)
    ensures forall k :: k in names && k in db ==> db[k].ip != ip
  {
  }

  /** The loop of `available_addr_ids` fails on a record only when the database is not consistent. */
  lemma RemoveFailsOnlyIfInconsistent(db: Db, done: set<string>, name: string)
    requires name in db && name !in done && done <= db.Keys
    requires db[name].ip.network in AVAILABLE ==>
               db[name].ip.addrId !in AVAILABLE[db[name].ip.network] - UsedIdsAmong(db, done, db[name].ip.network)
    ensures !Consistent(db)
  {
    var ip := db[name].ip;
    if ip.network in AVAILABLE && ip.addrId in AVAILABLE[ip.network] {
      assert ip.addrId in UsedIdsAmong(db, done, ip.network);
      var other :| other in done && other in db && db[other].ip.network == ip.network
                   && db[other].ip.addrId == ip.addrId;
      assert other != name && db[other].ip == db[name].ip;
    }
  }

  /** One successful `remove` keeps the loop invariant of `available_addr_ids`. */
  lemma RemoveStep(db: Db, done: set<string>, name: string, pools: map<string, set<int>>)
    requires name in db && ConsistentAmong(db, done)
    requires pools.Keys == AVAILABLE.Keys
    requires forall n :: n in AVAILABLE ==> pools[n] == AVAILABLE[n] - UsedIdsAmong(db, done, n)
    requires db[name].ip.network in pools && db[name].ip.addrId in pools[db[name].ip.network]
    ensures var ip := db[name].ip;
            var pools' := pools[ip.network := pools[ip.network] - {ip.addrId}];
            && ConsistentAmong(db, done + {name})
            && pools'.Keys == AVAILABLE.Keys
            && forall n :: n in AVAILABLE ==> pools'[n] == AVAILABLE[n] - UsedIdsAmong(db, done + {name}, n)
  {
    var ip := db[name].ip;
    forall n | n in AVAILABLE
      ensures UsedIdsAmong(db, done + {name}, n)
           == UsedIdsAmong(db, done, n) + (if ip.network == n then {ip.addrId} else {})
    {
      UsedIdsAmongStep(db, done, name, n);
    }
    FreeIdHasNoHolder(db, done, ip);
  }

  /**
   * `available_addr_ids`: copy the pools (a map value, so the constant is
   * never touched), then take each record's id out of its network's pool.
   * None stands for the KeyError that `remove` raises on an id that is not
   * (or no longer) in the pool, or `networks[network]` on an unknown network.
   */
  method AvailableAddrIds(db: Db) returns (networks: Option<map<string, set<int>>>)
    ensures networks.Some? <==> Consistent(db)
    ensures networks.Some? ==> networks.value.Keys == AVAILABLE.Keys
    ensures networks.Some? ==> forall n :: n in AVAILABLE ==> networks.value[n] == FreeIds(db, n)
  {
    var pools := AVAILABLE;
    var todo := db.Keys;
    ghost var done: set<string> := {};
    while todo != {}
      invariant todo + done == db.Keys && todo !! done
      invariant pools.Keys == AVAILABLE.Keys
      invariant forall n :: n in AVAILABLE ==> pools[n] == AVAILABLE[n] - UsedIdsAmong(db, done, n)
      invariant ConsistentAmong(db, done)
      decreases todo
    {
      var name :| name in todo;
      var ip := db[name].ip;
      if ip.network !in pools || ip.addrId !in pools[ip.network] {
        RemoveFailsOnlyIfInconsistent(db, done, name);
        return None;
      }
      RemoveStep(db, done, name, pools);
      pools := pools[ip.network := pools[ip.network] - {ip.addrId}];
      todo := todo - {name};
      done := done + {name};
    }
    networks := Some(pools);
  }

  /** The used ids of `names` depend only on the records those names map to. */
  lemma UsedIdsAmongFrame(db: Db, db': Db, names: set<string>, n: string)
    requires forall k :: k in names ==> (k in db <==> k in db') && (k in db ==> db[k] == db'[k])
    ensures UsedIdsAmong(db, names, n) == UsedIdsAmong(db', names, n)
  {
  }

  /**
   * Inserting a new record that holds a free id keeps the database
   * consistent and takes exactly that id out of its network's free set.
   */
  lemma InsertFreeId(db: Db, name: string, rec: Record)
    requires Consistent(db) && name !in db
    requires rec.ip.network in AVAILABLE && rec.ip.addrId in FreeIds(db, rec.ip.network)
    ensures Consistent(db[name := rec])
    ensures forall n :: n in AVAILABLE ==>
              FreeIds(db[name := rec], n) == FreeIds(db, n) - (if n == rec.ip.network then {rec.ip.addrId} else {})
    ensures |UsedIds(db[name := rec], rec.ip.network)| == |UsedIds(db, rec.ip.network)| + 1
  {
    InsertFreeIdConsistent(db, name, rec);
    InsertUsedId(db, name, rec, rec.ip.network);
    forall n | n in AVAILABLE
      ensures FreeIds(db[name := rec], n) == FreeIds(db, n) - (if n == rec.ip.network then {rec.ip.addrId} else {})
    {
      InsertUsedId(db, name, rec, n);
    }
  }

  lemma InsertUsedId(db: Db, name: string, rec: Record, n: string)
    requires name !in db
    ensures UsedIds(db[name := rec], n) == UsedIds(db, n) + (if n == rec.ip.network then {rec.ip.addrId} else {})
  {
    var db' := db[name := rec];
    assert db'.Keys == db.Keys + {name};
    UsedIdsAmongFrame(db, db', db.Keys, n);
    UsedIdsAmongStep(db', db.Keys, name, n);
  }

  lemma InsertFreeIdConsistent(db: Db, name: string, rec: Record)
    requires Consistent(db) && name !in db
    requires rec.ip.network in AVAILABLE && rec.ip.addrId in FreeIds(db, rec.ip.network)
    ensures Consistent(db[name := rec])
  {
    FreeIdHasNoHolder(db, db.Keys, rec.ip);
    var db' := db[name := rec];
    assert db'.Keys == db.Keys + {name};
    assert forall k :: k in db ==> db'[k] == db[k];
  }

  /** A consistent database holds only ids of the configured ranges. */
  lemma UsedIdsWithinPool(db: Db, n: string)
    requires Consistent(db) && n in AVAILABLE
    ensures UsedIds(db, n) <= AVAILABLE[n]
  {
  }

  /**
   * The public pool is exhausted exactly when ten ids are in use: ten
   * successful public allocations (each adds one used id) into an empty
   * database leave nothing for an eleventh.
   */
  lemma PublicPoolExhaustion(db: Db)
    requires Consistent(db)
    ensures |UsedIds(db, "public")| <= 10
    ensures FreeIds(db, "public") == {} <==> |UsedIds(db, "public")| == 10
  {
    PublicPoolSize();
    UsedIdsWithinPool(db, "public");
    var used, pool := UsedIds(db, "public"), AVAILABLE["public"];
    assert |pool - used| == |pool| - |used|;
  }
}
