/** The records kept in the VM database (one YAML mapping per VM name). */
module Records {

  /** `{"unit": ..., "amt": ...}`, as produced by the RAM and disk parsers. */
  datatype Amount = Amount(unit: string, amt: int)

  /** The record's `ip` pair: network class and address id. */
  datatype Ip = Ip(network: string, addrId: int)

  datatype Record = Record(host: string, ram: Amount, vcpus: int, disk: Amount, ip: Ip)

  /** The database: VM name -> record. */
  type Db = map<string, Record>
}
