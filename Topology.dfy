/**
 * The static topology of the fleet: the address pool of each network class,
 * the link templates of each host and the per-host CPU ceilings
 * (`AVAILABLE`, `HOST_NETWORKS` and `HOST_CPUS` in vms/manage.py).
 */
module Topology {

  /**
   * One link of a host: the bridge it attaches to, and the MAC and IP
   * patterns. Every pattern of the source ends with its one placeholder
   * (`'52:54:01:00:00:{0:02X}'`, `'164.39.7.{0:d}'`), so a pattern is kept
   * as the text before the placeholder.
   */
  datatype LinkTemplate = LinkTemplate(bridge: string, macPrefix: string, ipPrefix: string)

  /** host -> link key ("public", "pubpriv" or "private") -> template */
  type HostTable = map<string, map<string, LinkTemplate>>

  const LINK_KEYS: set<string> := {"public", "pubpriv", "private"}

  /**
   * Says no more than `lo <= i <= hi`; it is there only to give the
   * comprehension in `Range` a term the verifier can trigger on.
   */
  predicate Between(lo: int, i: int, hi: int) {
    lo <= i <= hi
  }

  /** Python's `set(range(lo, hi + 1))`. */
  function Range(lo: int, hi: int): (s: set<int>)
  {
    set i | lo <= i <= hi && Between(lo, i, hi)
  }

  /** `set(range(lo, hi + 1))` holds hi - lo + 1 ids. */
  lemma {:induction false} RangeSize(lo: int, hi: int)
    requires lo <= hi + 1
    ensures |Range(lo, hi)| == hi - lo + 1
    decreases hi - lo
  {
    if lo <= hi {
      RangeSize(lo, hi - 1);
      forall i
        ensures i in Range(lo, hi) <==> i in Range(lo, hi - 1) + {hi}
      {
        assert Between(lo, i, hi) <==> Between(lo, i, hi - 1) || i == hi;
      }
      assert Range(lo, hi) == Range(lo, hi - 1) + {hi};
    }
  }

  /** The full address-id range of each network class. */
  const AVAILABLE: map<string, set<int>> := map[
    "public" := Range(115, 124),
    "private" := Range(2, 254)
  ]

  /** The public pool holds ten ids, so ten public VMs exhaust it. */
  lemma PublicPoolSize()
    ensures |AVAILABLE["public"]| == 10
  {
    RangeSize(115, 124);
  }

  /** Every id of every pool fits the last octet of a MAC and of an IPv4 address. */
  lemma PoolIdsAreOctets(n: string, id: int)
    requires n in AVAILABLE && id in AVAILABLE[n]
    ensures 0 <= id < 256
  {
  }

  /** The links of host ceto. */
  const CETO_LINKS: map<string, LinkTemplate> := map[
    "public" := LinkTemplate("br0", "52:54:01:00:00:", "164.39.7."),
    "pubpriv" := LinkTemplate("br1", "52:54:01:01:01:", "10.0.1."),
    "private" := LinkTemplate("br1", "52:54:01:01:03:", "10.0.3.")
  ]

  /** The links of host phorcys, exactly as vms/manage.py writes them. */
  const PHORCYS_LINKS: map<string, LinkTemplate> := map[
    "public" := LinkTemplate("br0", "52:54:02:00:00:", "164.39.7."),
    "pubpriv" := LinkTemplate("br1", "52:54:02:01:02:", "10.0.2."),
    "private" := LinkTemplate("br1", "52:54:02:01:04:", "10.0.2.")
  ]

  /**
   * Phorcys' links with the private IP pattern on 10.0.4, the subnet its
   * MAC pattern (01:04) and ceto's layout (01:03 <-> 10.0.3) point to.
   * The written table puts both of phorcys' internal links on 10.0.2.
   */
  const PHORCYS_LINKS_CORRECTED: map<string, LinkTemplate> := map[
    "public" := LinkTemplate("br0", "52:54:02:00:00:", "164.39.7."),
    "pubpriv" := LinkTemplate("br1", "52:54:02:01:02:", "10.0.2."),
    "private" := LinkTemplate("br1", "52:54:02:01:04:", "10.0.4.")
  ]

  /** `HOST_NETWORKS` exactly as vms/manage.py writes it: the table the program runs with. */
  const HOST_NETWORKS: HostTable := map["ceto" := CETO_LINKS, "phorcys" := PHORCYS_LINKS]

  /** `HOST_NETWORKS` with phorcys' private IP pattern corrected. */
  const HOST_NETWORKS_CORRECTED: HostTable := map["ceto" := CETO_LINKS, "phorcys" := PHORCYS_LINKS_CORRECTED]

  const HOST_CPUS: map<string, int> := map["ceto" := 4, "phorcys" := 8]
}
