/** The values ddsnet4u.rb passes around besides addresses: optional values
    (Ruby's nil) and the fatal conditions that end a run with an unhandled
    exception. */
module Results {
  import opened IPv4

  /** A value that may be nil. */
  datatype Option<T> = None | Some(value: T)

  /** The conditions under which the script raises and aborts. */
  datatype Fault =
    | InvalidPrefixLength(len: nat)   // IPAddr.new on a configured "a.b.c.d/len" with len > 32
    | NoIPv4Address                   // the interface has no IPv4 address
    | UnreadableAddress               // an interface address or netmask is nil: raises, or `.first` on nil
    | MetadataMissing(subnet: Prefix) // the chosen subnet's entry is null; `nil['gw']`

  /** The outcome of a step that may raise. */
  datatype Result<T> = Ok(value: T) | Err(fault: Fault)
}
