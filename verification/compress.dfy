/**
  `compress` of cidrips.c: passes for prefix lengths 31 down to 0 over the
  working list, each folding a run of neighbours that agree when masked to
  the pass's prefix length into one zone, and the count-mode search over
  aggregation levels in `main`.
*/
module Compress {
  import opened Arith
  import opened Options
  import opened Prefix
  import opened ZoneList

  /** The sum of the counts of the zones (`compress_stats.source_count`). */
  function Sum(zs: seq<Zone>): nat
  {
    if |zs| == 0 then 0 else Sum(zs[..|zs| - 1]) + zs[|zs| - 1].count
  }

  /** The number of addresses the zones' blocks span (`compress_stats.coverage`). */
  function Coverage(zs: seq<Zone>): nat
  {
    if |zs| == 0 then 0 else Coverage(zs[..|zs| - 1]) + Weight(zs[|zs| - 1].prefix.cidr)
  }

  lemma {:induction false} SumAppend(xs: seq<Zone>, ys: seq<Zone>)
    ensures Sum(xs + ys) == Sum(xs) + Sum(ys)
  {
    if |ys| > 0 {
      SumAppend(xs, ys[..|ys| - 1]);
      assert (xs + ys)[..|xs + ys| - 1] == xs + ys[..|ys| - 1];
    } else {
      assert xs + ys == xs;
    }
  }

  /** `addr_v4_weight(i) >> level`: how many addresses a run must count to be folded at prefix length i. */
  function Threshold(i: Cidr, level: nat): nat
  {
    Weight(i) / Pow2(level)
  }

  /** Whether zone z lies in the same block of prefix length i as zone y. */
  predicate SameBlock(y: Zone, z: Zone, i: Cidr)
  {
    Mask(y.prefix.addr, i) == Mask(z.prefix.addr, i)
  }

  /**
    The inner `while (pt)` loop: from position k on, the number of zones
    that agree with zs[0] when masked to i, stopping at the first that does not.
  */
  function RunFrom(zs: seq<Zone>, i: Cidr, k: nat): (n: nat)
    requires 1 <= k <= |zs|
    ensures k <= n <= |zs|
    ensures forall m :: k <= m < n ==> SameBlock(zs[0], zs[m], i)
    ensures n < |zs| ==> !SameBlock(zs[0], zs[n], i)
    decreases |zs| - k
  {
    if k == |zs| || !SameBlock(zs[0], zs[k], i) then k
    else RunFrom(zs, i, k + 1)
  }

  /** The run that starts at zs[0]: zs[0] and every following zone in its block at prefix length i. */
  function RunLength(zs: seq<Zone>, i: Cidr): (n: nat)
    requires |zs| >= 1
    ensures 1 <= n <= |zs|
    ensures forall m :: 0 <= m < n ==> SameBlock(zs[0], zs[m], i)
    ensures n < |zs| ==> !SameBlock(zs[0], zs[n], i)
  {
    RunFrom(zs, i, 1)
  }

  /**
    The survivor of a folded run: the first node, now the block of prefix
    length i that holds its address, counting the whole run.
  */
  function Merged(run: seq<Zone>, i: Cidr): Zone
    requires |run| >= 1
  {
    Zone(Prefix(Mask(run[0].prefix.addr, i), i), Sum(run))
  }

  /** Whether the run of n zones at the cursor is folded: it has a member besides the cursor and counts enough. */
  predicate Folds(zs: seq<Zone>, n: nat, i: Cidr, level: nat)
    requires n <= |zs|
  {
    n >= 2 && Sum(zs[..n]) >= Threshold(i, level)
  }

  /**
    How one pass cuts the list: a folded run is one block, any other node is
    a block by itself, and the cursor moves past the block.
  */
  function Blocks(zs: seq<Zone>, i: Cidr, level: nat): (bs: seq<seq<Zone>>)
    decreases |zs|
  {
    if |zs| == 0 then []
    else
      var n := RunLength(zs, i);
      if Folds(zs, n, i, level) then [zs[..n]] + Blocks(zs[n..], i, level)
      else [zs[..1]] + Blocks(zs[1..], i, level)
  }

  /** What a block leaves in the list: a folded run its survivor, a single node itself. */
  function Collapse(b: seq<Zone>, i: Cidr): Zone
    requires |b| >= 1
  {
    if |b| == 1 then b[0] else Merged(b, i)
  }

  function CollapseAll(bs: seq<seq<Zone>>, i: Cidr): (r: seq<Zone>)
    requires forall k :: 0 <= k < |bs| ==> |bs[k]| >= 1
    ensures |r| == |bs|
    ensures forall k :: 0 <= k < |bs| ==> r[k] == Collapse(bs[k], i)
  {
    if |bs| == 0 then [] else [Collapse(bs[0], i)] + CollapseAll(bs[1..], i)
  }

  function Flatten(bs: seq<seq<Zone>>): seq<Zone>
  {
    if |bs| == 0 then [] else bs[0] + Flatten(bs[1..])
  }

  /** Every block of a pass is non-empty; a block of two or more is a run in one block of prefix length i that counts enough. */
  lemma {:induction false} BlocksShape(zs: seq<Zone>, i: Cidr, level: nat)
    ensures forall k :: 0 <= k < |Blocks(zs, i, level)| ==> |Blocks(zs, i, level)[k]| >= 1
    ensures forall k :: 0 <= k < |Blocks(zs, i, level)| && |Blocks(zs, i, level)[k]| >= 2 ==>
      Sum(Blocks(zs, i, level)[k]) >= Threshold(i, level) &&
      forall m :: 0 <= m < |Blocks(zs, i, level)[k]| ==>
        SameBlock(Blocks(zs, i, level)[k][0], Blocks(zs, i, level)[k][m], i)
    decreases |zs|
  {
    if |zs| > 0 {
      var n := RunLength(zs, i);
      var bs := Blocks(zs, i, level);
      if Folds(zs, n, i, level) {
        BlocksShape(zs[n..], i, level);
        assert bs == [zs[..n]] + Blocks(zs[n..], i, level);
        assert forall k :: 1 <= k < |bs| ==> bs[k] == Blocks(zs[n..], i, level)[k - 1];
      } else {
        BlocksShape(zs[1..], i, level);
        assert bs == [zs[..1]] + Blocks(zs[1..], i, level);
        assert forall k :: 1 <= k < |bs| ==> bs[k] == Blocks(zs[1..], i, level)[k - 1];
      }
    }
  }

  /** A pass neither drops nor reorders nodes: the blocks, put back together, are the list. */
  lemma {:induction false} BlocksFlatten(zs: seq<Zone>, i: Cidr, level: nat)
    ensures Flatten(Blocks(zs, i, level)) == zs
    decreases |zs|
  {
    if |zs| > 0 {
      var n := RunLength(zs, i);
      if Folds(zs, n, i, level) {
        BlocksFlatten(zs[n..], i, level);
        assert Blocks(zs, i, level)[1..] == Blocks(zs[n..], i, level);
        assert zs[..n] + zs[n..] == zs;
      } else {
        BlocksFlatten(zs[1..], i, level);
        assert Blocks(zs, i, level)[1..] == Blocks(zs[1..], i, level);
        assert zs[..1] + zs[1..] == zs;
      }
    }
  }

  /**
    One pass of `compress` at prefix length i (cidrips.c:862-897): a folded
    run becomes its survivor and the cursor moves past it; otherwise the
    cursor moves on by one node.
  */
  function Pass(zs: seq<Zone>, i: Cidr, level: nat): seq<Zone>
    decreases |zs|
  {
    if |zs| == 0 then []
    else
      var n := RunLength(zs, i);
      if Folds(zs, n, i, level) then [Merged(zs[..n], i)] + Pass(zs[n..], i, level)
      else [zs[0]] + Pass(zs[1..], i, level)
  }

  /** A pass is the collapse of its blocks. */
  lemma {:induction false} PassCollapsesBlocks(zs: seq<Zone>, i: Cidr, level: nat)
    ensures forall k :: 0 <= k < |Blocks(zs, i, level)| ==> |Blocks(zs, i, level)[k]| >= 1
    ensures Pass(zs, i, level) == CollapseAll(Blocks(zs, i, level), i)
    decreases |zs|
  {
    BlocksShape(zs, i, level);
    if |zs| > 0 {
      var n := RunLength(zs, i);
      var bs := Blocks(zs, i, level);
      if Folds(zs, n, i, level) {
        PassCollapsesBlocks(zs[n..], i, level);
        assert bs[1..] == Blocks(zs[n..], i, level);
      } else {
        PassCollapsesBlocks(zs[1..], i, level);
        assert bs[1..] == Blocks(zs[1..], i, level);
        assert zs[..1] == [zs[0]];
      }
    }
  }

  /** The total of a list cut into blocks is the total of the blocks' totals, which collapsing keeps. */
  lemma {:induction false} SumCollapse(bs: seq<seq<Zone>>, i: Cidr)
    requires forall k :: 0 <= k < |bs| ==> |bs[k]| >= 1
    ensures Sum(CollapseAll(bs, i)) == Sum(Flatten(bs))
  {
    if |bs| > 0 {
      SumCollapse(bs[1..], i);
      var c := Collapse(bs[0], i);
      assert CollapseAll(bs, i) == [c] + CollapseAll(bs[1..], i);
      SumAppend([c], CollapseAll(bs[1..], i));
      SumAppend(bs[0], Flatten(bs[1..]));
      assert Sum([c]) == c.count by {
        assert [c][..0] == [];
      }
      if |bs[0]| == 1 {
        assert bs[0] == [bs[0][0]];
      }
    }
  }

  lemma {:induction false} FlattenLength(bs: seq<seq<Zone>>)
    requires forall k :: 0 <= k < |bs| ==> |bs[k]| >= 1
    ensures |Flatten(bs)| >= |bs|
  {
    if |bs| > 0 {
      FlattenLength(bs[1..]);
    }
  }

  /** A pass keeps the total count: the survivor of a run receives the run's sum (cidrips.c:878-891). */
  lemma PassConserves(zs: seq<Zone>, i: Cidr, level: nat)
    ensures Sum(Pass(zs, i, level)) == Sum(zs)
  {
    PassCollapsesBlocks(zs, i, level);
    BlocksFlatten(zs, i, level);
    SumCollapse(Blocks(zs, i, level), i);
  }

  /** A pass never makes the list longer. */
  lemma PassShrinks(zs: seq<Zone>, i: Cidr, level: nat)
    ensures |Pass(zs, i, level)| <= |zs|
  {
    PassCollapsesBlocks(zs, i, level);
    BlocksFlatten(zs, i, level);
    FlattenLength(Blocks(zs, i, level));
  }

  /**
    The passes for prefix lengths 31, 30, ..., 32 - n, in that order;
    `compress` runs all 32 of them.
  */
  function Passes(zs: seq<Zone>, n: nat, level: nat): seq<Zone>
    requires n <= 32
  {
    if n == 0 then zs else Pass(Passes(zs, n - 1, level), 32 - n, level)
  }

  lemma {:induction false} PassesConserve(zs: seq<Zone>, n: nat, level: nat)
    requires n <= 32
    ensures Sum(Passes(zs, n, level)) == Sum(zs)
    ensures |Passes(zs, n, level)| <= |zs|
  {
    if n > 0 {
      PassesConserve(zs, n - 1, level);
      PassConserves(Passes(zs, n - 1, level), 32 - n, level);
      PassShrinks(Passes(zs, n - 1, level), 32 - n, level);
    }
  }

  /** `compress_stats`, as `compress` leaves it. */
  datatype Stats = Stats(coverage: nat, sourceCount: nat)

  /** The statistics loop of one pass, run over the list the pass leaves. */
  method Measure(zs: seq<Zone>) returns (count: nat, stats: Stats)
    ensures count == |zs|
    ensures stats == Stats(Coverage(zs), Sum(zs))
  {
    count := 0;
    stats := Stats(0, 0);
    while count < |zs|
      invariant count <= |zs|
      invariant stats == Stats(Coverage(zs[..count]), Sum(zs[..count]))
    {
      assert zs[..count + 1][..count] == zs[..count];
      stats := Stats(stats.coverage + Weight(zs[count].prefix.cidr), stats.sourceCount + zs[count].count);
      count := count + 1;
    }
    assert zs[..count] == zs;
  }

  /** The result of `compress` at a level, as a function. */
  function Compressed(zs: seq<Zone>, level: nat): seq<Zone>
  {
    Passes(zs, 32, level)
  }

  /**
    `compress(head, tail, level)`: the 32 passes in turn, then the length of
    the final list and the statistics of the last pass. The level is below 64
    so that the shift `>> level` is defined.
  */
  method CompressList(zs: seq<Zone>, level: nat) returns (r: seq<Zone>, count: nat, stats: Stats)
    requires level < 64
    ensures r == Compressed(zs, level)
    ensures count == |r| && count <= |zs|
    ensures stats == Stats(Coverage(r), Sum(r)) && stats.sourceCount == Sum(zs)
  {
    r := zs;
    count := 0;
    stats := Stats(0, 0);
    var i := 31;
    while i >= 0
      invariant -1 <= i <= 31
      invariant r == Passes(zs, 31 - i, level)
      invariant i < 31 ==> count == |r| && stats == Stats(Coverage(r), Sum(r))
    {
      r := Pass(r, i, level);
      count, stats := Measure(r);
      i := i - 1;
    }
    assert r == Passes(zs, 32, level);
    PassesConserve(zs, 32, level);
  }

  /** The outcome of count mode: the list kept, with the count and statistics the program reports. */
  datatype CountOutcome =
    | OutOfMemory(failedLevel: nat)
    | Kept(zones: seq<Zone>, level: Option<nat>, count: nat, stats: Stats)

  /** Every level below l had memory for the copy and left more than target zones. */
  predicate LevelsTooLong(zs: seq<Zone>, target: int, avail: seq<nat>, l: nat)
    requires l <= |avail|
  {
    forall m :: 0 <= m < l ==> avail[m] >= |zs| && |Compressed(zs, m)| > target
  }

  lemma LevelsTooLongStep(zs: seq<Zone>, target: int, avail: seq<nat>, l: nat)
    requires l < |avail|
    requires LevelsTooLong(zs, target, avail, l)
    requires avail[l] >= |zs| && |Compressed(zs, l)| > target
    ensures LevelsTooLong(zs, target, avail, l + 1)
  {
  }

  /**
    Count mode of `main` (cidrips.c:970-986): levels 0 to 32 in turn, each on
    a fresh `list_copy` of the input, until one leaves at most `target`
    zones. The allocator hands out avail[l] nodes for the copy at level l; a
    copy that runs out ends the program. If no level is good enough the
    input list is kept, while the count and statistics are those of level 32.
  */
  method CountMode(zs: seq<Zone>, target: int, avail: seq<nat>) returns (out: CountOutcome)
    requires |avail| == 33
    ensures out.OutOfMemory? ==>
      out.failedLevel <= 32 && avail[out.failedLevel] < |zs| &&
      LevelsTooLong(zs, target, avail, out.failedLevel)
    ensures out.Kept? && out.level.Some? ==>
      var l := out.level.value;
      l <= 32 && avail[l] >= |zs| && LevelsTooLong(zs, target, avail, l) &&
      out.zones == Compressed(zs, l) && out.count == |out.zones| <= target &&
      out.stats == Stats(Coverage(out.zones), Sum(zs))
    ensures out.Kept? && out.level.None? ==>
      LevelsTooLong(zs, target, avail, 33) &&
      out.zones == zs && out.count == |Compressed(zs, 32)| &&
      out.stats == Stats(Coverage(Compressed(zs, 32)), Sum(zs))
  {
    var l := 0;
    var count := 0;
    var stats := Stats(0, 0);
    while l <= 32
      invariant 0 <= l <= 33
      invariant LevelsTooLong(zs, target, avail, l)
      invariant l > 0 ==> count == |Compressed(zs, l - 1)| && stats == Stats(Coverage(Compressed(zs, l - 1)), Sum(zs))
    {
      var ok, copy := Copy(zs, [], avail[l]);
      if !ok {
        return OutOfMemory(l);
      }
      assert copy == zs;
      var r;
      r, count, stats := CompressList(copy, l);
      ghost var want := Compressed(zs, l);
      assert r == want && count == |want|;
      assert stats == Stats(Coverage(want), Sum(zs));
      if count <= target {
        return Kept(r, Some(l), count, stats);
      }
      LevelsTooLongStep(zs, target, avail, l);
      l := l + 1;
    }
    return Kept(zs, None, count, stats);
  }
}
