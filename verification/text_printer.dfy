/**
  `s_print_addr` and `s_print_v6_block_part` of the prototype in main.c:
  an IPv4 address as a dotted quad, an IPv6 address as eight `%x` groups,
  or in compact mode with its longest run of two or more zero groups
  written as `::` (sections 4.1 to 4.2.3 of RFC 5952), and `/cidr` behind
  a prefix shorter than the address.
*/
module TextPrinter {
  import opened Digits
  import opened TextAddr

  /** Strings joined by colons, as the `"%x:%x:..."` formats write them. */
  function Join(hs: seq<string>): string
  {
    if |hs| == 0 then ""
    else if |hs| == 1 then hs[0]
    else hs[0] + ":" + Join(hs[1..])
  }

  /** Each group in `%x`. */
  function HexStrings(g: seq<nat>): (r: seq<string>)
    ensures |r| == |g| && forall i :: 0 <= i < |g| ==> r[i] == HexString(g[i])
  {
    if |g| == 0 then [] else [HexString(g[0])] + HexStrings(g[1..])
  }

  /**
    `s_print_v6_block_part(buffer, addr, blocks, mode)`: the first `blocks`
    groups (left mode) or the last `blocks` groups (right mode), in `%x`
    joined by colons.
  */
  function BlockPart(g: seq<nat>, blocks: nat, right: bool): string
    requires |g| == 8 && blocks <= 8
  {
    var from := if right then 8 - blocks else 0;
    Join(HexStrings(g[from..from + blocks]))
  }

  /** The groups b .. b+len-1 exist and are all zero. */
  predicate ZeroRun(g: seq<nat>, b: nat, len: nat)
  {
    b + len <= |g| && forall k :: b <= k < b + len ==> g[k] == 0
  }

  /**
    What the compact scan is meant to find among the first n groups: `mn`
    is one less than the length of the longest zero run when that run has
    at least two groups, else 0; `mb` is where the leftmost such run begins,
    else 0.
  */
  predicate Longest(g: seq<nat>, n: nat, mb: nat, mn: nat)
  {
    (mn == 0 ==> mb == 0) &&
    (mn > 0 ==> mb + mn + 1 <= n && ZeroRun(g, mb, mn + 1)) &&
    NoRun(g, n, mn + 2) && NoRunBefore(g, mb, mn + 1)
  }

  /** No zero run of length len among the first n groups. */
  predicate NoRun(g: seq<nat>, n: nat, len: nat)
  {
    forall b: nat :: b + len <= n ==> !ZeroRun(g, b, len)
  }

  /** No zero run of length len starts before mb. */
  predicate NoRunBefore(g: seq<nat>, mb: nat, len: nat)
  {
    forall b: nat :: b < mb ==> !ZeroRun(g, b, len)
  }

  /**
    The scan loop of `s_print_addr` from index i on, with its variables
    `zero_num`, `zero_block_begin`, `zero_block_max_begin` and
    `zero_block_max_num`. The best run is updated before `zero_num` is
    incremented, and only when strictly longer.
  */
  function ScanFrom(g: seq<nat>, i: nat, zeroNum: nat, begin: nat, maxBegin: nat, maxNum: nat): (nat, nat)
    requires i <= |g|
    decreases |g| - i
  {
    if i == |g| then (maxBegin, maxNum)
    else if g[i] == 0 then
      var begin' := if zeroNum == 0 then i else begin;
      if zeroNum > maxNum then ScanFrom(g, i + 1, zeroNum + 1, begin', begin', zeroNum)
      else ScanFrom(g, i + 1, zeroNum + 1, begin', maxBegin, maxNum)
    else ScanFrom(g, i + 1, 0, begin, maxBegin, maxNum)
  }

  /** The scan over all groups: (`zero_block_max_begin`, `zero_block_max_num`). */
  function Scan(g: seq<nat>): (r: (nat, nat))
  {
    ScanFrom(g, 0, 0, 0, 0, 0)
  }

  /** The zeros just before index i: exactly z of them. */
  predicate Trailing(g: seq<nat>, i: nat, z: nat)
  {
    z <= i <= |g| && ZeroRun(g, i - z, z) && (z < i ==> g[i - z - 1] != 0)
  }

  lemma ZeroRunShorter(g: seq<nat>, b: nat, len: nat, len': nat)
    requires ZeroRun(g, b, len) && len' <= len
    ensures ZeroRun(g, b, len')
  {
  }

  /** One more group of the scan keeps its variables describing the groups read so far. */
  lemma ScanStep(g: seq<nat>, i: nat, z: nat, begin: nat, mb: nat, mn: nat)
    requires i < |g| && Trailing(g, i, z) && (z > 0 ==> begin == i - z) && Longest(g, i, mb, mn)
    ensures g[i] == 0 ==> Trailing(g, i + 1, z + 1)
    ensures g[i] == 0 && z > mn ==> Longest(g, i + 1, i - z, z)
    ensures g[i] == 0 && z <= mn ==> Longest(g, i + 1, mb, mn)
    ensures g[i] != 0 ==> Trailing(g, i + 1, 0) && Longest(g, i + 1, mb, mn)
  {
    if g[i] == 0 {
      assert ZeroRun(g, i - z, z + 1);
      if z > mn {
        var len := z + 2;
        forall b: nat | b + len <= i + 1
          ensures !ZeroRun(g, b, len)
        {
          if b + len == i + 1 {
            assert g[i - z - 1] != 0;
          } else if ZeroRun(g, b, len) {
            ZeroRunShorter(g, b, len, mn + 2);
          }
        }
        var len' := z + 1;
        forall b: nat | b < i - z
          ensures !ZeroRun(g, b, len')
        {
          if ZeroRun(g, b, len') {
            ZeroRunShorter(g, b, len', mn + 2);
          }
        }
      } else {
        var len := mn + 2;
        forall b: nat | b + len <= i + 1
          ensures !ZeroRun(g, b, len)
        {
        }
      }
    } else {
      var len := mn + 2;
      forall b: nat | b + len <= i + 1
        ensures !ZeroRun(g, b, len)
      {
        if b + len == i + 1 {
          assert !(g[i] == 0);
        }
      }
    }
  }

  lemma {:induction false} ScanFromLongest(g: seq<nat>, i: nat, z: nat, begin: nat, mb: nat, mn: nat)
    requires i <= |g| && Trailing(g, i, z) && (z > 0 ==> begin == i - z) && Longest(g, i, mb, mn)
    ensures Longest(g, |g|, ScanFrom(g, i, z, begin, mb, mn).0, ScanFrom(g, i, z, begin, mb, mn).1)
    decreases |g| - i
  {
    if i < |g| {
      ScanStep(g, i, z, begin, mb, mn);
      if g[i] == 0 {
        var begin' := if z == 0 then i else begin;
        if z > mn {
          ScanFromLongest(g, i + 1, z + 1, begin', begin', z);
        } else {
          ScanFromLongest(g, i + 1, z + 1, begin', mb, mn);
        }
      } else {
        ScanFromLongest(g, i + 1, 0, begin, mb, mn);
      }
    }
  }

  /** The scan finds the leftmost longest run of at least two zero groups. */
  lemma ScanLongest(g: seq<nat>)
    ensures Longest(g, |g|, Scan(g).0, Scan(g).1)
  {
    assert ZeroRun(g, 0, 0);
    ScanFromLongest(g, 0, 0, 0, 0, 0);
  }

  /** There is only one leftmost longest run. */
  lemma LongestUnique(g: seq<nat>, n: nat, mb: nat, mn: nat, mb': nat, mn': nat)
    requires Longest(g, n, mb, mn) && Longest(g, n, mb', mn')
    ensures mb == mb' && mn == mn'
  {
    if mn < mn' {
      ZeroRunShorter(g, mb', mn' + 1, mn + 2);
    } else if mn' < mn {
      ZeroRunShorter(g, mb, mn + 1, mn' + 2);
    }
  }

  /** `"/%u"` behind a prefix shorter than the address. */
  function Suffix(cidr: nat, bits: nat): (r: string)
    ensures r == "" <==> cidr >= bits
  {
    if cidr < bits then "/" + DecString(cidr) else ""
  }

  /** `"%u.%u.%u.%u"`. */
  function Dotted(os: seq<nat>): string
    requires |os| == 4
  {
    DecString(os[0]) + "." + DecString(os[1]) + "." + DecString(os[2]) + "." + DecString(os[3])
  }

  /** The compact form around the run of mn + 1 zero groups at mb. */
  function Compressed(g: seq<nat>, mb: nat, mn: nat): string
    requires |g| == 8 && mb + mn + 1 <= 8
  {
    BlockPart(g, mb, false) + "::" + BlockPart(g, 8 - (mb + mn + 1), true)
  }

  /**
    `s_print_addr(buffer, count, addr, mode)` as written. On the path that
    prints all eight groups, `/%u` goes to `bufp`, which still points at the
    start of the buffer, so the prefix overwrites the address.
  */
  function PrintAsWritten(a: Addr, compact: bool): string
    requires Valid(a)
  {
    match a
    case V4Addr(os, cidr) => Dotted(os) + Suffix(cidr, 32)
    case V6Addr(g, cidr) =>
      var (mb, mn) := Scan(g);
      if compact && mn > 0 && mb + mn + 1 <= 8 then Compressed(g, mb, mn) + Suffix(cidr, 128)
      else if cidr < 128 then Suffix(cidr, 128)
      else Join(HexStrings(g))
  }

  /** `s_print_addr` with the prefix written behind the eight groups. */
  function Print(a: Addr, compact: bool): string
    requires Valid(a)
  {
    match a
    case V4Addr(os, cidr) => Dotted(os) + Suffix(cidr, 32)
    case V6Addr(g, cidr) =>
      var (mb, mn) := Scan(g);
      if compact && mn > 0 && mb + mn + 1 <= 8 then Compressed(g, mb, mn) + Suffix(cidr, 128)
      else Join(HexStrings(g)) + Suffix(cidr, 128)
  }

  /**
    The shape of the IPv6 output: in compact mode, `::` stands for the
    leftmost longest run of at least two zero groups, with the groups
    before and after it on either side; without such a run, or in normal
    mode, all eight groups are written. The prefix follows when it is
    shorter than 128.
  */
  lemma PrintV6(g: seq<nat>, cidr: nat, compact: bool, mb: nat, mn: nat)
    requires Valid(V6Addr(g, cidr)) && Longest(g, 8, mb, mn)
    ensures compact && mn > 0 ==>
      Print(V6Addr(g, cidr), compact) ==
        Join(HexStrings(g[..mb])) + "::" + Join(HexStrings(g[mb + mn + 1..])) + Suffix(cidr, 128)
    ensures !compact || mn == 0 ==> Print(V6Addr(g, cidr), compact) == Join(HexStrings(g)) + Suffix(cidr, 128)
  {
    ScanLongest(g);
    LongestUnique(g, 8, mb, mn, Scan(g).0, Scan(g).1);
    if compact && mn > 0 {
      CompressedParts(g, mb, mn);
    }
  }

  lemma CompressedParts(g: seq<nat>, mb: nat, mn: nat)
    requires |g| == 8 && mb + mn + 1 <= 8
    ensures Compressed(g, mb, mn) == Join(HexStrings(g[..mb])) + "::" + Join(HexStrings(g[mb + mn + 1..]))
  {
    var e := mb + mn + 1;
    assert g[8 - (8 - e)..8 - (8 - e) + (8 - e)] == g[e..];
    assert g[0..0 + mb] == g[..mb];
  }

  /** Two zero groups in a row start a run of two. */
  lemma PairStarts(g: seq<nat>, mb: nat, mn: nat)
    requires mn > 0 && ZeroRun(g, mb, mn + 1)
    ensures mb + 1 < |g| && g[mb] == 0 && g[mb + 1] == 0
  {
  }

  /** A lone zero group is never replaced by `::`: the compact form needs two zero groups in a row. */
  lemma NoRunNoCompression(g: seq<nat>, cidr: nat)
    requires Valid(V6Addr(g, cidr))
    requires forall i :: 0 <= i < 7 ==> g[i] != 0 || g[i + 1] != 0
    ensures Scan(g).1 == 0
    ensures Print(V6Addr(g, cidr), true) == Join(HexStrings(g)) + Suffix(cidr, 128)
  {
    ScanLongest(g);
    var (mb, mn) := Scan(g);
    if mn > 0 {
      PairStarts(g, mb, mn);
    }
    PrintV6(g, cidr, true, mb, mn);
  }

  /**
    The as-written printer loses the address: without a zero run to
    compress, an IPv6 address with a prefix shorter than 128 prints as the
    prefix alone, where the corrected printer keeps the eight groups.
  */
  lemma PrintAsWrittenLosesAddress(g: seq<nat>, cidr: nat, compact: bool)
    requires Valid(V6Addr(g, cidr)) && cidr < 128
    requires !compact || Scan(g).1 == 0
    ensures PrintAsWritten(V6Addr(g, cidr), compact) == "/" + DecString(cidr)
    ensures Print(V6Addr(g, cidr), compact) == Join(HexStrings(g)) + "/" + DecString(cidr)
  {
  }

  /**
    For example 1:2:3:4:5:6:7:8/64 prints as "/64" alone; the corrected
    printer writes the eight groups and then "/64".
  */
  lemma PrintAsWrittenExample()
    ensures PrintAsWritten(V6Addr([1, 2, 3, 4, 5, 6, 7, 8], 64), true) == "/64"
    ensures Print(V6Addr([1, 2, 3, 4, 5, 6, 7, 8], 64), true) == Join(HexStrings([1, 2, 3, 4, 5, 6, 7, 8])) + "/64"
  {
    var g := [1, 2, 3, 4, 5, 6, 7, 8];
    NoRunNoCompression(g, 64);
    PrintAsWrittenLosesAddress(g, 64, true);
    assert DecString(64) == "64" by {
      assert DecString(6) == "6";
    }
  }
}
