/** IP addresses, as `std::net::IpAddr` holds them. */
module Addresses {

  datatype Option<+T> = None | Some(value: T)

  const V6_LIMIT: nat := 0x1_0000_0000_0000_0000_0000_0000_0000_0000

  /** IPv4 as its four octets, IPv6 as its 128-bit value. */
  datatype IpAddr =
    | V4(a: nat, b: nat, c: nat, d: nat)
    | V6(value: nat)

  predicate WellFormed(ip: IpAddr) {
    match ip
    case V4(a, b, c, d) => a < 256 && b < 256 && c < 256 && d < 256
    case V6(v) => v < V6_LIMIT
  }
}
