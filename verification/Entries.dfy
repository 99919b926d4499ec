/** The entries of the overlay store. */
module Entries {
  import opened Text

  /** store.Entry: a container address with prefix length, its host's address, and flags. */
  datatype Entry = Entry(ip: string, hostIp: string, self: bool, peer: bool)

  /** The index of an entry: its address without the prefix length. */
  function IpKey(e: Entry): string { BeforeSlash(e.ip) }
}
