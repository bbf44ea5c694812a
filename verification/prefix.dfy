/**
  The IPv4 prefix of cidrips.c (`addr_t`: a 32-bit value and a prefix length),
  its mask, the size of the block it names, and the ordering `addr_compare`
  that keeps the working list sorted.
*/
module Prefix {
  import opened Arith

  /** An unsigned 32-bit value. */
  type U32 = x: nat | x < 0x1_0000_0000

  /** A prefix length of an IPv4 block. */
  type Cidr = c: nat | c <= 32

  /** `addr_t` of cidrips.c: the raw address (not necessarily masked) and its prefix length. */
  datatype Prefix = Prefix(addr: U32, cidr: Cidr)

  /** `addr_v4_weight`: the number of addresses in a block of prefix length c. */
  function Weight(c: Cidr): (r: nat)
    ensures 1 <= r <= 0x1_0000_0000
  {
    Pow2Monotone(32 - c, 32);
    Pow2Of32();
    Pow2(32 - c)
  }

  /** The index of the block of prefix length c that holds a. */
  function Index(a: nat, c: Cidr): nat
  {
    DivNonNegative(a, Weight(c));
    a / Weight(c)
  }

  /**
    `addr_raw_mask`: a with its low 32 - c bits cleared. The C computes
    `a & (~0UL << (32 - c))` on a 64-bit unsigned long, which is the largest
    multiple of 2^(32-c) not above a.
  */
  function Mask(a: U32, c: Cidr): (r: U32)
    ensures r <= a < r + Weight(c)
    ensures r % Weight(c) == 0
    ensures r == Index(a, c) * Weight(c)
  {
    var w := Weight(c);
    FloorMultiple(a, w);
    assert Index(a, c) == a / w;
    Index(a, c) * w
  }

  /** A multiple of the block size that brackets a is the mask of a. */
  lemma MaskUnique(a: U32, c: Cidr, q: nat)
    requires q * Weight(c) <= a < q * Weight(c) + Weight(c)
    ensures Index(a, c) == q
    ensures Mask(a, c) == q * Weight(c)
  {
    DivUnique(a, Weight(c), q);
  }

  function Min(a: int, b: int): int
  {
    if a > b then b else a
  }

  /**
    `addr_compare`: 1 when x sorts after y, -1 when before, 0 when both name
    the same block. Both values are masked to the shorter prefix; on a tie
    the longer (more specific) prefix sorts first.
  */
  function Compare(x: Prefix, y: Prefix): (r: int)
    ensures r == -1 || r == 0 || r == 1
    ensures r == 0 <==> x.cidr == y.cidr && Mask(x.addr, x.cidr) == Mask(y.addr, y.cidr)
  {
    var c := Min(x.cidr, y.cidr);
    var d := Mask(x.addr, c) - Mask(y.addr, c);
    if d > 0 then 1
    else if d < 0 then -1
    else if x.cidr > y.cidr then -1
    else if x.cidr < y.cidr then 1
    else 0
  }

  /** Every prefix names the same block as itself. */
  lemma CompareReflexive(x: Prefix)
    ensures Compare(x, x) == 0
  {
  }

  /** The first address past the block that p names. */
  function End(p: Prefix): nat
  {
    Mask(p.addr, p.cidr) + Weight(p.cidr)
  }

  /** Lexicographic comparison of (End, -cidr): the order that Compare turns out to be. */
  function EndOrder(x: Prefix, y: Prefix): int
  {
    if End(x) < End(y) then -1
    else if End(x) > End(y) then 1
    else if x.cidr > y.cidr then -1
    else if x.cidr < y.cidr then 1
    else 0
  }

  /** The block of a at a shorter prefix c1 is found by dividing its block index at c2. */
  lemma IndexCoarser(a: U32, c1: Cidr, c2: Cidr)
    requires c1 <= c2
    ensures Weight(c1) == Weight(c2) * Pow2(c2 - c1)
    ensures Index(a, c1) == Index(a, c2) / Pow2(c2 - c1)
  {
    Pow2Add(32 - c2, c2 - c1);
    DivDiv(a, Weight(c2), Pow2(c2 - c1));
  }

  /** A prefix ends inside (or at the end of) the coarser block that holds it. */
  lemma EndWithinCoarse(y: Prefix, c1: Cidr)
    requires c1 <= y.cidr
    ensures Mask(y.addr, c1) < End(y) <= Mask(y.addr, c1) + Weight(c1)
  {
    var c2 := y.cidr;
    var bs := Weight(c2);
    var rr := Pow2(c2 - c1);
    var q := Index(y.addr, c1);
    var iy := Index(y.addr, c2);
    assert Weight(c1) == bs * rr && q == iy / rr by {
      IndexCoarser(y.addr, c1, c2);
    }
    assert Mask(y.addr, c1) == q * (bs * rr);
    assert End(y) == iy * bs + bs;
    ScaleQuotient(iy, rr, bs);
  }

  /** Two distinct masks at the same prefix length lie at least one block apart. */
  lemma MasksApart(a: U32, b: U32, c: Cidr)
    requires Mask(a, c) < Mask(b, c)
    ensures Mask(a, c) + Weight(c) <= Mask(b, c)
  {
    MultiplesApart(Index(a, c), Index(b, c), Weight(c));
  }

  lemma {:induction false} CompareByEndOrdered(x: Prefix, y: Prefix)
    requires x.cidr <= y.cidr
    ensures Compare(x, y) == EndOrder(x, y)
  {
    var c := x.cidr;
    EndWithinCoarse(y, c);
    var mx := Mask(x.addr, c);
    var my := Mask(y.addr, c);
    if mx < my {
      MasksApart(x.addr, y.addr, c);
    } else if my < mx {
      MasksApart(y.addr, x.addr, c);
    }
  }

  /**
    addr_compare orders prefixes by the end of their block, and among blocks
    that end together, the longer prefix first.
  */
  lemma CompareByEnd(x: Prefix, y: Prefix)
    ensures Compare(x, y) == EndOrder(x, y)
  {
    if x.cidr <= y.cidr {
      CompareByEndOrdered(x, y);
    } else {
      CompareByEndOrdered(y, x);
    }
  }

  /** Swapping the arguments negates the result. */
  lemma CompareAntisymmetric(x: Prefix, y: Prefix)
    ensures Compare(x, y) == -Compare(y, x)
  {
    CompareByEnd(x, y);
    CompareByEnd(y, x);
  }

  /** Compare is transitive: it is a strict total order on (masked value, cidr). */
  lemma CompareTransitive(x: Prefix, y: Prefix, z: Prefix)
    requires Compare(x, y) < 0 && Compare(y, z) < 0
    ensures Compare(x, z) < 0
  {
    CompareByEnd(x, y);
    CompareByEnd(y, z);
    CompareByEnd(x, z);
  }

  /** Compare(x, y) <= 0 and Compare(y, z) < 0 give Compare(x, z) < 0. */
  lemma CompareTransitiveLeLt(x: Prefix, y: Prefix, z: Prefix)
    requires Compare(x, y) <= 0 && Compare(y, z) < 0
    ensures Compare(x, z) < 0
  {
    CompareByEnd(x, y);
    CompareByEnd(y, z);
    CompareByEnd(x, z);
  }

  /** Compare only looks at the masked value: equal prefixes compare alike against anything. */
  lemma CompareSubstitute(x: Prefix, x': Prefix, y: Prefix)
    requires Compare(x, x') == 0
    ensures Compare(x, y) == Compare(x', y)
  {
    CompareByEnd(x, x');
    CompareByEnd(x, y);
    CompareByEnd(x', y);
  }
}
