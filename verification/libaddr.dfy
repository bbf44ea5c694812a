/**
  The address helpers of libcidrips (`addr.c`): `addr_t` with its 16-byte
  union, `addr_set`, the IPv4 zone weight and raw mask, the IPv4 branch of
  `addr_sub_zone_of`, `addr_parse_v4`, and the IPv6 zone weight.
*/
module LibAddr {
  import opened Arith
  import opened Options
  import opened Prefix
  import V4Text
  import Bc134
  import Digits

  type Octet = V4Text.Octet

  /** `AddrIPv4` (0) and `AddrIPv6` (1). */
  datatype Version = V4 | V6

  /**
    `addr_t`: the version, the storage of the union (16 bytes; an IPv4
    address is its first 4) and the prefix length, an unsigned char.
  */
  datatype Addr = Addr(verno: Version, bytes: seq<Octet>, cidr: Octet)

  predicate Valid(a: Addr)
  {
    |a.bytes| == 16
  }

  /** The number of bytes of the union an address of a version uses. */
  function Width(ver: Version): nat
  {
    if ver == V4 then 4 else 16
  }

  /** The 32-bit value of an IPv4 address: `v4[0] << 24 | v4[1] << 16 | v4[2] << 8 | v4[3]`. */
  function V4Value(a: Addr): U32
    requires Valid(a)
  {
    V4Text.Pack(a.bytes[..4])
  }

  /**
    `addr_set(addr, ver, v, cidr)`: the version is always set; the prefix
    length only when cidr >= 0, truncated to an unsigned char; the bytes of
    the version's width are copied only when v is not NULL (None here).
  */
  function SetAddr(a: Addr, ver: Version, v: Option<seq<Octet>>, cidr: int): (r: Addr)
    requires Valid(a)
    requires v.Some? ==> |v.value| >= Width(ver)
    ensures Valid(r) && r.verno == ver
    ensures r.cidr == (if cidr >= 0 then cidr % 256 else a.cidr)
    ensures v.None? ==> r.bytes == a.bytes
    ensures v.Some? ==> r.bytes[..Width(ver)] == v.value[..Width(ver)]
    ensures forall k :: Width(ver) <= k < 16 ==> r.bytes[k] == a.bytes[k]
  {
    var c: Octet := if cidr >= 0 then cidr % 256 else a.cidr;
    var bs := if v.Some? then v.value[..Width(ver)] + a.bytes[Width(ver)..] else a.bytes;
    Addr(ver, bs, c)
  }

  /** Setting the same thing twice is setting it once. */
  lemma SetAddrIdempotent(a: Addr, ver: Version, v: Option<seq<Octet>>, cidr: int)
    requires Valid(a)
    requires v.Some? ==> |v.value| >= Width(ver)
    ensures SetAddr(SetAddr(a, ver, v, cidr), ver, v, cidr) == SetAddr(a, ver, v, cidr)
  {
    var r := SetAddr(a, ver, v, cidr);
    var r2 := SetAddr(r, ver, v, cidr);
    assert r2.bytes == r.bytes;
  }

  /** An IPv4 address set from four bytes reads back as their big-endian value. */
  lemma SetAddrV4ReadBack(a: Addr, v: seq<Octet>, cidr: int)
    requires Valid(a) && |v| == 4
    ensures V4Value(SetAddr(a, V4, Some(v), cidr)) == V4Text.Pack(v)
  {
    assert SetAddr(a, V4, Some(v), cidr).bytes[..4] == v;
  }

  /** `addr_zone_v4_weight(cidr)`: `1ULL << (32 - cidr)`, for 0 <= cidr <= 32. */
  function ZoneV4Weight(cidr: int): (r: nat)
    requires 0 <= cidr <= 32
    ensures r == Weight(cidr)
  {
    Pow2(32 - cidr)
  }

  /** The weight of a zone is the number of 32-bit values it holds: those in one aligned run of that length. */
  lemma ZoneV4WeightCountsBlock(a: U32, x: U32, cidr: Cidr)
    ensures Mask(x, cidr) == Mask(a, cidr) <==> Mask(a, cidr) <= x < Mask(a, cidr) + ZoneV4Weight(cidr)
  {
    var m := Mask(a, cidr);
    if m <= x < m + Weight(cidr) {
      MaskUnique(x, cidr, Index(a, cidr));
    }
  }

  /**
    `addr_mask_raw_v4(addr, cidr)`: the big-endian value with its low
    32 - cidr bits cleared (`& 0xffffffff << (32 - cidr)`). cidr is at least
    1, because the shift by 32 at cidr 0 is undefined.
  */
  function MaskRawV4(a: Addr, cidr: int): (r: U32)
    requires Valid(a) && 1 <= cidr <= 32
    ensures r <= V4Value(a) < r + ZoneV4Weight(cidr)
    ensures r % ZoneV4Weight(cidr) == 0
  {
    Mask(V4Value(a), cidr)
  }

  /** The raw mask is the only multiple of the weight within one weight below the value, so masking twice changes nothing. */
  lemma MaskRawV4Unique(a: Addr, cidr: int, m: nat)
    requires Valid(a) && 1 <= cidr <= 32
    requires m % ZoneV4Weight(cidr) == 0 && m <= V4Value(a) < m + ZoneV4Weight(cidr)
    ensures MaskRawV4(a, cidr) == m
  {
    var w := Weight(cidr);
    MultipleOf(m, w);
    MaskUnique(V4Value(a), cidr, m / w);
  }

  /** Whether the 32-bit value x lies in the zone of address a. */
  predicate InZone(x: U32, a: Addr)
    requires Valid(a) && a.cidr <= 32
  {
    Mask(x, a.cidr) == Mask(V4Value(a), a.cidr)
  }

  /** Every value in the needle's zone lies in the haystack's zone. */
  predicate ZoneContains(h: Addr, n: Addr)
    requires Valid(h) && Valid(n) && h.cidr <= 32 && n.cidr <= 32
  {
    forall x: U32 :: InZone(x, n) ==> InZone(x, h)
  }

  /** Values in one block at a prefix length are in one block at every shorter length. */
  lemma MaskCoarsens(x: U32, y: U32, c1: Cidr, c2: Cidr)
    requires c1 <= c2 && Mask(x, c2) == Mask(y, c2)
    ensures Mask(x, c1) == Mask(y, c1)
  {
    IndexCoarser(x, c1, c2);
    IndexCoarser(y, c1, c2);
    MulCancel(Index(x, c2), Index(y, c2), Weight(c2));
  }

  /**
    The IPv4 branch of `addr_sub_zone_of(haystack, needle)`: both values
    masked to the haystack's prefix length agree. The C asserts that the
    haystack's prefix is not longer than the needle's.
  */
  function SubZoneOf(h: Addr, n: Addr): (r: bool)
    requires Valid(h) && Valid(n) && h.verno == V4 && n.verno == V4
    requires 1 <= h.cidr <= n.cidr <= 32
    ensures r <==> ZoneContains(h, n)
  {
    MasksAgreeIffContains(h, n);
    MaskRawV4(h, h.cidr) == MaskRawV4(n, h.cidr)
  }

  lemma MasksAgreeIffContains(h: Addr, n: Addr)
    requires Valid(h) && Valid(n)
    requires 1 <= h.cidr <= n.cidr <= 32
    ensures MaskRawV4(h, h.cidr) == MaskRawV4(n, h.cidr) <==> ZoneContains(h, n)
  {
    if MaskRawV4(h, h.cidr) == MaskRawV4(n, h.cidr) {
      forall x: U32 | InZone(x, n)
        ensures InZone(x, h)
      {
        MaskCoarsens(x, V4Value(n), h.cidr, n.cidr);
      }
    } else {
      assert InZone(V4Value(n), n);
    }
  }

  /**
    `addr_parse_v4(p, addr)` of libcidrips: once four octets are read the
    version, the bytes and prefix length 32 are stored, before the suffix is
    looked at; a bad suffix then returns 0 with those fields already
    changed. The remaining twelve bytes of the union are left alone.
  */
  function ParseV4(s: string, a: Addr): (r: (bool, Addr))
    requires Valid(a)
    ensures Valid(r.1)
    ensures !r.0 && V4Text.ScanOctets(s, 4).None? ==> r.1 == a
  {
    match V4Text.ScanOctets(s, 4)
    case None => (false, a)
    case Some((vs, n)) =>
      var stored := Addr(V4, vs + a.bytes[4..], 32);
      var rest := s[n..];
      if |rest| == 0 then (true, stored)
      else if rest[0] != '/' then (false, stored)
      else
        match V4Text.ScanOctet(rest[1..])
        case None => (false, stored)
        case Some((c, _)) => if c <= 32 then (true, stored.(cidr := c)) else (false, stored)
  }

  /** The prefix an IPv4 address names. */
  function ToPrefix(a: Addr): Prefix
    requires Valid(a) && a.cidr <= 32
  {
    Prefix(V4Value(a), a.cidr)
  }

  /** libcidrips' parser accepts exactly what cidrips.c's accepts, and stores the same IPv4 prefix. */
  lemma ParseV4Agrees(s: string, a: Addr)
    requires Valid(a)
    ensures ParseV4(s, a).0 <==> V4Text.ParseV4(s).Some?
    ensures ParseV4(s, a).0 ==>
      (ParseV4(s, a).1.verno == V4 && ParseV4(s, a).1.cidr <= 32 &&
       ToPrefix(ParseV4(s, a).1) == V4Text.ParseV4(s).value)
  {
    match V4Text.ScanOctets(s, 4)
    case None =>
    case Some((vs, n)) =>
      assert (vs + a.bytes[4..])[..4] == vs;
  }

  /** A rejected suffix after four good octets leaves the address holding those octets and prefix length 32. */
  lemma ParseV4BadSuffixChangesAddr(vs: seq<Octet>, suffix: string, a: Addr)
    requires Valid(a) && |vs| == 4
    requires |suffix| > 0 && suffix[0] != '/' && !Digits.IsDecDigit(suffix[0])
    ensures !ParseV4(V4Text.Dotted(vs) + suffix, a).0
    ensures ParseV4(V4Text.Dotted(vs) + suffix, a).1 == Addr(V4, vs + a.bytes[4..], 32)
  {
    V4Text.ScanOctetsOfDotted(vs, suffix);
    assert (V4Text.Dotted(vs) + suffix)[|V4Text.Dotted(vs)|..] == suffix;
  }

  /** What the printer writes, the parser reads back into an IPv4 address of that prefix. */
  lemma PrintParseV4(p: Prefix, a: Addr)
    requires Valid(a)
    ensures ParseV4(V4Text.PrintV4(p), a).0
    ensures ToPrefix(ParseV4(V4Text.PrintV4(p), a).1) == p
  {
    V4Text.PrintParseV4(p);
    ParseV4Agrees(V4Text.PrintV4(p), a);
  }

  /** The counter with the single byte j set to b, every other byte zero. */
  function SingleByte(j: nat, b: Bc134.Byte): (r: seq<Bc134.Byte>)
    requires j < Bc134.Size
    ensures |r| == Bc134.Size
    ensures Bc134.Value(r) == b * Pow(256, j)
  {
    var z := Bc134.Zeros(Bc134.Size);
    Bc134.ValueOfZero(z);
    Bc134.ValueUpdate(z, j, b);
    z[j := b]
  }

  /** Bit c of a counter as a byte string: byte c / 8, bit c % 8, which stands for 2^c. */
  function BitSet(c: nat): (r: seq<Bc134.Byte>)
    requires c <= 128
    ensures |r| == Bc134.Size
    ensures Bc134.Value(r) == Pow2(c)
  {
    Pow2Monotone(c % 8, 7);
    assert Pow2(7) == 128;
    var r := SingleByte(c / 8, Pow2(c % 8));
    Bc134.PowOf256(c / 8);
    Pow2Add(c % 8, 8 * (c / 8));
    r
  }

  /**
    `addr_zone_v6_weight(out, cidr)` as written: it sets bit `cidr`
    (`out[cidr >> 3] |= 1 << (cidr & 7)` on a zeroed counter), which is
    2^cidr, not the 2^(128 - cidr) addresses of a zone of prefix length cidr.
  */
  function ZoneV6WeightAsWritten(cidr: nat): (r: seq<Bc134.Byte>)
    requires cidr <= 128
    ensures |r| == Bc134.Size
    ensures Bc134.Value(r) == Pow2(cidr)
  {
    BitSet(cidr)
  }

  /** A single address (/128) gets weight 2^128, and the whole space (/0) gets weight 1. */
  lemma ZoneV6WeightAsWrittenInverted()
    ensures Bc134.Value(ZoneV6WeightAsWritten(128)) == Pow2(128) > 1
    ensures Bc134.Value(ZoneV6WeightAsWritten(0)) == 1
  {
    Pow2Monotone(1, 128);
  }

  /** The corrected IPv6 zone weight: bit 128 - cidr, the number of addresses in a zone of prefix length cidr. */
  function ZoneV6Weight(cidr: nat): (r: seq<Bc134.Byte>)
    requires cidr <= 128
    ensures |r| == Bc134.Size
    ensures Bc134.Value(r) == Pow2(128 - cidr)
  {
    BitSet(128 - cidr)
  }
}
