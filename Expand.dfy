/**
 * The configuration expander (`expand_config` in vms/manage.py): a pure
 * mapping from one database record to the VM's resolved interfaces. A
 * public VM gets two links (device 0 on the host's "pubpriv" template,
 * device 1 on its "public" template), a private VM one (device 0 on
 * "private"). The expander is a function of the host table, so that the
 * table as written and the corrected one can both be reasoned about.
 */
module Expand {
  import opened Wrappers
  import opened Format
  import opened Records
  import opened Topology
  import opened Pools

  /** One resolved link: `{"dev", "network", "mac", "ip"}`. */
  datatype Interface = Interface(dev: nat, network: string, mac: string, ip: string)

  /** The expanded VM: the record's fields plus its interfaces in device order. */
  datatype Config = Config(host: string, vmName: string, ram: Amount, vcpus: int, disk: Amount,
                           interfaces: seq<Interface>)

  datatype ExpandError =
    | UnknownHost(host: string)            // KeyError from HOST_NETWORKS[vm["host"]]
    | BadNetworkClass(network: string)     // the `assert False` branch

  /** Every host of the table has all three links. */
  predicate WellFormed(table: HostTable)
  {
    forall h :: h in table ==> LINK_KEYS <= table[h].Keys
  }

  /** The nested `interface(dev, key)`: a link template filled in with an address id. */
  function Instantiate(t: LinkTemplate, dev: nat, addrId: int): (i: Interface)
  {
    Interface(dev, t.bridge, t.macPrefix + FormatHex02(addrId), t.ipPrefix + FormatDecimal(addrId))
  }

  /** `expand_config(vm_name, vm)` against host table `table`. */
  function ExpandWith(table: HostTable, vmName: string, vm: Record): (r: Result<Config, ExpandError>)
    requires WellFormed(table)
    ensures vm.host !in table ==> r == Failure(UnknownHost(vm.host))
    ensures vm.host in table && vm.ip.network !in {"public", "private"} ==> r == Failure(BadNetworkClass(vm.ip.network))
    ensures r.Success? <==> vm.host in table && vm.ip.network in {"public", "private"}
    ensures r.Success? ==>
      && r.value.host == vm.host && r.value.vmName == vmName && r.value.ram == vm.ram
      && r.value.vcpus == vm.vcpus && r.value.disk == vm.disk
      && |r.value.interfaces| == (if vm.ip.network == "public" then 2 else 1)
  {
    if vm.host !in table then Failure(UnknownHost(vm.host))
    else
      var links := table[vm.host];
      var addrId := vm.ip.addrId;
      var interfaces :=
        if vm.ip.network == "public" then
          Some([Instantiate(links["pubpriv"], 0, addrId), Instantiate(links["public"], 1, addrId)])
        else if vm.ip.network == "private" then
          Some([Instantiate(links["private"], 0, addrId)])
        else None;
      if interfaces.None? then Failure(BadNetworkClass(vm.ip.network))
      else Success(Config(vm.host, vmName, vm.ram, vm.vcpus, vm.disk, interfaces.value))
  }

  /** `expand_config(vm_name, vm)`, on the host table the program has. */
  function ExpandConfig(vmName: string, vm: Record): (r: Result<Config, ExpandError>)
    ensures r.Success? <==> vm.host in {"ceto", "phorcys"} && vm.ip.network in {"public", "private"}
  {
    HostTablesWellFormed();
    ExpandWith(HOST_NETWORKS, vmName, vm)
  }

  /** `expand_config` on the corrected host table. */
  function ExpandConfigCorrected(vmName: string, vm: Record): (r: Result<Config, ExpandError>)
    ensures r.Success? <==> vm.host in {"ceto", "phorcys"} && vm.ip.network in {"public", "private"}
  {
    HostTablesWellFormed();
    ExpandWith(HOST_NETWORKS_CORRECTED, vmName, vm)
  }

  lemma HostTablesWellFormed()
    ensures WellFormed(HOST_NETWORKS_CORRECTED) && WellFormed(HOST_NETWORKS)
  {
  }

  /** The link a VM of network class `network` gets as device `dev`. */
  function LinkKey(network: string, dev: nat): (key: string)
  {
    if network == "public" && dev == 0 then "pubpriv"
    else if network == "public" then "public"
    else "private"
  }

  /** Each link key belongs to one (network class, device) pair. */
  lemma LinkKeyInjective(c1: string, d1: nat, c2: string, d2: nat)
    requires c1 in {"public", "private"} && c2 in {"public", "private"}
    requires d1 < (if c1 == "public" then 2 else 1) && d2 < (if c2 == "public" then 2 else 1)
    ensures LinkKey(c1, d1) in LINK_KEYS
    ensures LinkKey(c1, d1) == LinkKey(c2, d2) <==> c1 == c2 && d1 == d2
  {
  }

  /** A filled-in link's MAC and IP end in the address id, as the hexadecimal and decimal parsers read it back. */
  lemma InstantiateCarriesId(t: LinkTemplate, dev: nat, addrId: int)
    ensures var i := Instantiate(t, dev, addrId);
      && i.dev == dev && i.network == t.bridge
      && i.mac[..|t.macPrefix|] == t.macPrefix && i.ip[..|t.ipPrefix|] == t.ipPrefix
      && (addrId >= 0 ==> ParseHex(i.mac[|t.macPrefix|..]) == Some(addrId))
      && ParseInt(i.ip[|t.ipPrefix|..]) == Some(addrId)
  {
    var i := Instantiate(t, dev, addrId);
    assert i.mac[|t.macPrefix|..] == FormatHex02(addrId);
    assert i.ip[|t.ipPrefix|..] == FormatDecimal(addrId);
    DecimalRoundTrip(addrId);
    if addrId >= 0 {
      Hex02RoundTrip(addrId);
    }
  }

  /**
   * The interfaces of an expanded VM: two for a public VM, one for a private
   * one; device i is link LinkKey(class, i) of the host filled in with the
   * record's address id.
   */
  lemma ExpandedInterfaces(table: HostTable, vmName: string, vm: Record)
    requires WellFormed(table)
    requires ExpandWith(table, vmName, vm).Success?
    ensures var ifs := ExpandWith(table, vmName, vm).value.interfaces;
      && vm.host in table && vm.ip.network in {"public", "private"}
      && |ifs| == (if vm.ip.network == "public" then 2 else 1)
      && forall i :: 0 <= i < |ifs| ==>
           ifs[i] == Instantiate(table[vm.host][LinkKey(vm.ip.network, i)], i, vm.ip.addrId)
  {
  }

  /** Host ceto, public id 5: device 0 on pubpriv, device 1 on public. */
  lemma CetoPublicExample(ram: Amount, vcpus: int, disk: Amount)
    ensures ExpandConfig("vm", Record("ceto", ram, vcpus, disk, Ip("public", 5)))
         == Success(Config("ceto", "vm", ram, vcpus, disk, [
              Interface(0, "br1", "52:54:01:01:01:05", "10.0.1.5"),
              Interface(1, "br0", "52:54:01:00:00:05", "164.39.7.5")]))
  {
    assert FormatHex02(5) == "05";
    assert FormatDecimal(5) == "5";
    assert "52:54:01:01:01:" + "05" == "52:54:01:01:01:05";
    assert "52:54:01:00:00:" + "05" == "52:54:01:00:00:05";
    assert "10.0.1." + "5" == "10.0.1.5";
    assert "164.39.7." + "5" == "164.39.7.5";
  }

  /** A record `allocate` just stored always expands (`cmd_allocate` expands it at once). */
  lemma AllocatedRecordExpands(vmName: string, vm: Record)
    requires vm.host in HOST_CPUS && vm.ip.network in AVAILABLE
    ensures ExpandConfig(vmName, vm).Success?
    ensures |ExpandConfig(vmName, vm).value.interfaces| == if vm.ip.network == "public" then 2 else 1
  {
    HostTablesWellFormed();
    ExpandedInterfaces(HOST_NETWORKS, vmName, vm);
  }

  /** The two addresses each interface carries. */
  datatype AddressKind = Mac | IpAddress

  function Address(i: Interface, kind: AddressKind): (a: string)
  {
    if kind == Mac then i.mac else i.ip
  }

  /** A template's text before the placeholder, for one kind of address. */
  function Prefix(t: LinkTemplate, kind: AddressKind): (p: string)
  {
    if kind == Mac then t.macPrefix else t.ipPrefix
  }

  /** The character that ends every prefix of that kind: the octet separator. */
  function Separator(kind: AddressKind): (sep: char)
  {
    if kind == Mac then ':' else '.'
  }

  /** The placeholder's rendering, `{0:02X}` or `{0:d}`. */
  function Rendered(addrId: int, kind: AddressKind): (s: string)
  {
    if kind == Mac then FormatHex02(addrId) else FormatDecimal(addrId)
  }

  /** `p` is non-empty and ends in `sep`. */
  predicate EndsIn(p: string, sep: char)
  {
    |p| > 0 && p[|p| - 1] == sep
  }

  /** Every prefix of that kind of one host ends in the octet separator. */
  predicate LinksEnd(links: map<string, LinkTemplate>, kind: AddressKind)
    requires LINK_KEYS <= links.Keys
  {
    && EndsIn(Prefix(links["public"], kind), Separator(kind))
    && EndsIn(Prefix(links["pubpriv"], kind), Separator(kind))
    && EndsIn(Prefix(links["private"], kind), Separator(kind))
  }

  /** No prefix of that kind of one host equals a prefix of another link key of a second host. */
  predicate LinksApart(l1: map<string, LinkTemplate>, l2: map<string, LinkTemplate>, kind: AddressKind)
    requires LINK_KEYS <= l1.Keys && LINK_KEYS <= l2.Keys
  {
    && Prefix(l1["public"], kind) != Prefix(l2["pubpriv"], kind)
    && Prefix(l1["public"], kind) != Prefix(l2["private"], kind)
    && Prefix(l1["pubpriv"], kind) != Prefix(l2["public"], kind)
    && Prefix(l1["pubpriv"], kind) != Prefix(l2["private"], kind)
    && Prefix(l1["private"], kind) != Prefix(l2["public"], kind)
    && Prefix(l1["private"], kind) != Prefix(l2["pubpriv"], kind)
  }

  /**
   * Every prefix of that kind ends in the octet separator, and two links of
   * the table share a prefix only if they have the same link key (on any
   * hosts): then an address tells which link of a VM it is.
   */
  predicate SeparatesLinks(table: HostTable, kind: AddressKind)
  {
    && WellFormed(table)
    && (forall h :: h in table ==> LinksEnd(table[h], kind))
    && (forall h1, h2 :: h1 in table && h2 in table ==> LinksApart(table[h1], table[h2], kind))
  }

  /** Under SeparatesLinks, equal prefixes of two hosts' links mean equal link keys. */
  lemma SamePrefixSameKey(table: HostTable, kind: AddressKind, h1: string, k1: string, h2: string, k2: string)
    requires SeparatesLinks(table, kind)
    requires h1 in table && h2 in table && k1 in LINK_KEYS && k2 in LINK_KEYS
    ensures EndsIn(Prefix(table[h1][k1], kind), Separator(kind))
    ensures Prefix(table[h1][k1], kind) == Prefix(table[h2][k2], kind) ==> k1 == k2
  {
    var l1, l2 := table[h1], table[h2];
    assert LinksEnd(l1, kind) && LinksApart(l1, l2, kind);
    assert k1 == "public" || k1 == "pubpriv" || k1 == "private";
    assert k2 == "public" || k2 == "pubpriv" || k2 == "private";
  }

  /** Splitting an address at its last separator recovers prefix and rendered id. */
  lemma SplitAtLastSeparator(p1: string, d1: string, p2: string, d2: string, sep: char)
    requires EndsIn(p1, sep) && EndsIn(p2, sep)
    requires sep !in d1 && sep !in d2
    requires p1 + d1 == p2 + d2
    ensures p1 == p2 && d1 == d2
  {
    var s := p1 + d1;
    assert s[|p1| - 1] == sep && s[|p2| - 1] == sep;
    assert forall i :: |p1| <= i < |s| ==> s[i] != sep;
    assert forall i :: |p2| <= i < |s| ==> s[i] != sep;
    assert |p1| == |p2|;
    assert p1 == s[..|p1|] && p2 == s[..|p2|];
    assert d1 == s[|p1|..] && d2 == s[|p2|..];
  }

  /** A non-negative id renders without octet separators, and different ids render differently. */
  lemma RenderedId(a: nat, b: nat, kind: AddressKind)
    ensures Separator(kind) !in Rendered(a, kind)
    ensures Rendered(a, kind) == Rendered(b, kind) ==> a == b
  {
    RenderingsInjective(a, b);
    if kind == Mac {
      Hex02RoundTrip(a);
      assert forall i :: 0 <= i < |Rendered(a, kind)| ==> Rendered(a, kind)[i] != ':';
    } else {
      assert forall i :: 0 <= i < |Rendered(a, kind)| ==> Rendered(a, kind)[i] != '.';
    }
  }

  /** The address of an expanded interface: its link's prefix followed by the rendered id. */
  lemma AddressOf(table: HostTable, kind: AddressKind, vmName: string, vm: Record, i: nat)
    requires WellFormed(table)
    requires ExpandWith(table, vmName, vm).Success?
    requires i < |ExpandWith(table, vmName, vm).value.interfaces|
    ensures vm.host in table
    ensures Address(ExpandWith(table, vmName, vm).value.interfaces[i], kind)
            == Prefix(table[vm.host][LinkKey(vm.ip.network, i)], kind) + Rendered(vm.ip.addrId, kind)
  {
    ExpandedInterfaces(table, vmName, vm);
  }

  /**
   * Over a consistent database, and a table whose links are told apart by
   * their prefixes, no two interfaces of the expanded VMs share an address
   * of that kind.
   */
  lemma {:induction false} AddressesDistinct(table: HostTable, kind: AddressKind, db: Db,
                                              n1: string, i1: nat, n2: string, i2: nat)
    requires SeparatesLinks(table, kind)
    requires Consistent(db) && n1 in db && n2 in db
    requires ExpandWith(table, n1, db[n1]).Success? && ExpandWith(table, n2, db[n2]).Success?
    requires i1 < |ExpandWith(table, n1, db[n1]).value.interfaces|
    requires i2 < |ExpandWith(table, n2, db[n2]).value.interfaces|
    ensures Address(ExpandWith(table, n1, db[n1]).value.interfaces[i1], kind)
            == Address(ExpandWith(table, n2, db[n2]).value.interfaces[i2], kind)
            <==> n1 == n2 && i1 == i2
  {
    var r1, r2 := db[n1], db[n2];
    AddressOf(table, kind, n1, r1, i1);
    AddressOf(table, kind, n2, r2, i2);
    var k1, k2 := LinkKey(r1.ip.network, i1), LinkKey(r2.ip.network, i2);
    LinkKeyInjective(r1.ip.network, i1, r2.ip.network, i2);
    var p1, p2 := Prefix(table[r1.host][k1], kind), Prefix(table[r2.host][k2], kind);
    var d1, d2 := Rendered(r1.ip.addrId, kind), Rendered(r2.ip.addrId, kind);
    if p1 + d1 == p2 + d2 {
      RenderedId(r1.ip.addrId, r2.ip.addrId, kind);
      RenderedId(r2.ip.addrId, r1.ip.addrId, kind);
      SamePrefixSameKey(table, kind, r1.host, k1, r2.host, k2);
      SamePrefixSameKey(table, kind, r2.host, k2, r1.host, k1);
      SplitAtLastSeparator(p1, d1, p2, d2, Separator(kind));
      assert r1.ip == r2.ip;
    }
  }

  /** A table each of whose hosts has the links `a` or `b` separates links when `a` and `b` do, singly and together. */
  lemma HostsFromSeparateLinks(table: HostTable, a: map<string, LinkTemplate>, b: map<string, LinkTemplate>, kind: AddressKind)
    requires forall h :: h in table ==> table[h] == a || table[h] == b
    requires LINK_KEYS <= a.Keys && LINK_KEYS <= b.Keys
    requires LinksEnd(a, kind) && LinksEnd(b, kind)
    requires LinksApart(a, a, kind) && LinksApart(a, b, kind) && LinksApart(b, a, kind) && LinksApart(b, b, kind)
    ensures SeparatesLinks(table, kind)
  {
    forall h1, h2 | h1 in table && h2 in table
      ensures LinksApart(table[h1], table[h2], kind)
    {
      // one case per pair of link maps the two hosts can have
      if table[h1] == a {
        if table[h2] == a { } else { }
      } else {
        if table[h2] == a { } else { }
      }
    }
  }

  /** A two-host table separates links when each host's links end and each pair of hosts is apart. */
  lemma TwoHostsSeparateLinks(a: map<string, LinkTemplate>, b: map<string, LinkTemplate>, kind: AddressKind)
    requires LINK_KEYS <= a.Keys && LINK_KEYS <= b.Keys
    requires LinksEnd(a, kind) && LinksEnd(b, kind)
    requires LinksApart(a, a, kind) && LinksApart(a, b, kind) && LinksApart(b, a, kind) && LinksApart(b, b, kind)
    ensures SeparatesLinks(map["ceto" := a, "phorcys" := b], kind)
  {
    var table := map["ceto" := a, "phorcys" := b];
    assert forall h :: h in table ==> table[h] == a || table[h] == b;
    HostsFromSeparateLinks(table, a, b, kind);
  }

  /** The MAC prefixes of the table the program has already tell links apart. */
  lemma HostNetworksMacsSeparateLinks()
    ensures SeparatesLinks(HOST_NETWORKS, Mac)
  {
    TwoHostsSeparateLinks(CETO_LINKS, PHORCYS_LINKS, Mac);
  }

  /** The MAC and IP prefixes of the corrected table tell links apart. */
  lemma CorrectedTableSeparatesLinks()
    ensures SeparatesLinks(HOST_NETWORKS_CORRECTED, Mac)
    ensures SeparatesLinks(HOST_NETWORKS_CORRECTED, IpAddress)
  {
    TwoHostsSeparateLinks(CETO_LINKS, PHORCYS_LINKS_CORRECTED, Mac);
    TwoHostsSeparateLinks(CETO_LINKS, PHORCYS_LINKS_CORRECTED, IpAddress);
  }

  /**
   * Over a consistent database, the interfaces of all expanded VMs carry
   * pairwise distinct MAC addresses and pairwise distinct IP addresses.
   */
  lemma InterfaceAddressesUnique(db: Db, n1: string, i1: nat, n2: string, i2: nat)
    requires Consistent(db) && n1 in db && n2 in db
    requires ExpandConfigCorrected(n1, db[n1]).Success? && ExpandConfigCorrected(n2, db[n2]).Success?
    requires i1 < |ExpandConfigCorrected(n1, db[n1]).value.interfaces|
    requires i2 < |ExpandConfigCorrected(n2, db[n2]).value.interfaces|
    ensures var a, b := ExpandConfigCorrected(n1, db[n1]).value.interfaces[i1], ExpandConfigCorrected(n2, db[n2]).value.interfaces[i2];
      && (a.mac == b.mac <==> n1 == n2 && i1 == i2)
      && (a.ip == b.ip <==> n1 == n2 && i1 == i2)
  {
    CorrectedTableSeparatesLinks();
    AddressesDistinct(HOST_NETWORKS_CORRECTED, Mac, db, n1, i1, n2, i2);
    AddressesDistinct(HOST_NETWORKS_CORRECTED, IpAddress, db, n1, i1, n2, i2);
  }

  /**
   * On the table the program has, the MAC addresses of a consistent
   * database's expanded interfaces are pairwise distinct: only the IP
   * patterns clash.
   */
  lemma InterfaceMacsUnique(db: Db, n1: string, i1: nat, n2: string, i2: nat)
    requires Consistent(db) && n1 in db && n2 in db
    requires ExpandConfig(n1, db[n1]).Success? && ExpandConfig(n2, db[n2]).Success?
    requires i1 < |ExpandConfig(n1, db[n1]).value.interfaces|
    requires i2 < |ExpandConfig(n2, db[n2]).value.interfaces|
    ensures ExpandConfig(n1, db[n1]).value.interfaces[i1].mac == ExpandConfig(n2, db[n2]).value.interfaces[i2].mac
            <==> n1 == n2 && i1 == i2
  {
    HostNetworksMacsSeparateLinks();
    AddressesDistinct(HOST_NETWORKS, Mac, db, n1, i1, n2, i2);
  }

  /** A MAC prefix ending in ':' followed by `'{0:02X}'` of an octet ends in two hex digits after the ':'. */
  lemma MacLastOctet(p: string, addrId: nat)
    requires EndsIn(p, ':') && addrId < 256
    ensures var mac := p + FormatHex02(addrId);
      && |mac| > 2 && mac[|mac| - 3] == ':' && IsHexDigit(mac[|mac| - 2]) && IsHexDigit(mac[|mac| - 1])
      && ParseHex(mac[|mac| - 2..]) == Some(addrId)
  {
    Hex02RoundTrip(addrId);
    var mac := p + FormatHex02(addrId);
    assert mac[|mac| - 2..] == FormatHex02(addrId);
    assert mac[|mac| - 3] == p[|p| - 1];
  }

  /** On a table whose MAC prefixes separate links, an interface carrying an octet ends in ':' and two hex digits. */
  lemma MacOctetOn(table: HostTable, vmName: string, vm: Record, i: nat)
    requires SeparatesLinks(table, Mac) && 0 <= vm.ip.addrId < 256
    requires ExpandWith(table, vmName, vm).Success? && i < |ExpandWith(table, vmName, vm).value.interfaces|
    ensures var mac := ExpandWith(table, vmName, vm).value.interfaces[i].mac;
      && |mac| > 2 && mac[|mac| - 3] == ':' && IsHexDigit(mac[|mac| - 2]) && IsHexDigit(mac[|mac| - 1])
      && ParseHex(mac[|mac| - 2..]) == Some(vm.ip.addrId)
  {
    AddressOf(table, Mac, vmName, vm, i);
    var key := LinkKey(vm.ip.network, i);
    SamePrefixSameKey(table, Mac, vm.host, key, vm.host, key);
    MacLastOctet(table[vm.host][key].macPrefix, vm.ip.addrId);
  }

  /**
   * Every interface of a record holding a pool id has a MAC whose last
   * octet is exactly two hexadecimal digits after a ':', reading back as
   * that id.
   */
  lemma AllocatedMacOctet(vmName: string, vm: Record, i: nat)
    requires vm.ip.network in AVAILABLE && vm.ip.addrId in AVAILABLE[vm.ip.network]
    requires ExpandConfig(vmName, vm).Success? && i < |ExpandConfig(vmName, vm).value.interfaces|
    ensures var mac := ExpandConfig(vmName, vm).value.interfaces[i].mac;
      && |mac| > 2 && mac[|mac| - 3] == ':' && IsHexDigit(mac[|mac| - 2]) && IsHexDigit(mac[|mac| - 1])
      && ParseHex(mac[|mac| - 2..]) == Some(vm.ip.addrId)
  {
    PoolIdsAreOctets(vm.ip.network, vm.ip.addrId);
    HostNetworksMacsSeparateLinks();
    MacOctetOn(HOST_NETWORKS, vmName, vm, i);
  }

  /**
   * With the table as written, a public VM and a private VM on phorcys that
   * hold the same id in their own pools (a consistent database) get the same
   * IP address: 10.0.2.115 on pubpriv and on private.
   */
  lemma PhorcysIpCollisionAsWritten(ram: Amount, disk: Amount)
    ensures var db := map["web" := Record("phorcys", ram, 1, disk, Ip("public", 115)),
                          "store" := Record("phorcys", ram, 1, disk, Ip("private", 115))];
      && Consistent(db)
      && ExpandConfig("web", db["web"]).Success?
      && ExpandConfig("store", db["store"]).Success?
      && ExpandConfig("web", db["web"]).value.interfaces[0].ip == "10.0.2.115"
      && ExpandConfig("store", db["store"]).value.interfaces[0].ip == "10.0.2.115"
  {
    HostTablesWellFormed();
    assert FormatDecimal(115) == "115";
    assert "10.0.2." + "115" == "10.0.2.115";
  }
}
