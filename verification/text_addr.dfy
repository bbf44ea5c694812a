/** `struct _addr` of the prototype in main.c: an IPv4 or IPv6 address with a prefix length. */
module TextAddr {
  datatype Addr = V4Addr(octets: seq<nat>, cidr: nat) | V6Addr(groups: seq<nat>, cidr: nat)

  /** The union's array sizes and element widths: four octets, or eight 16-bit groups. */
  predicate Valid(a: Addr)
  {
    match a
    case V4Addr(os, _) => |os| == 4 && forall i :: 0 <= i < 4 ==> os[i] < 256
    case V6Addr(gs, _) => |gs| == 8 && forall i :: 0 <= i < 8 ==> gs[i] < 0x1_0000
  }
}
