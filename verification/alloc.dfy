/**
  The node allocator of libcidrips (`alloc.c`): a list of pages, each with
  64 node slots and an 8-byte bitmap `busy` in which bit j of byte k marks
  slot 8k + j as taken. `malloc` is a parameter: whether a new page can be
  had.
*/
module Alloc {
  import opened Options

  /** The bitmap of one page; the nodes themselves are not modelled. */
  type Page = p: seq<bv8> | |p| == 8 witness [0, 0, 0, 0, 0, 0, 0, 0]

  const Slots: nat := 64

  /** A fresh page after `memset(busy, 0, 8)`: every slot free. */
  const EmptyPage: Page := [0, 0, 0, 0, 0, 0, 0, 0]

  const FullPage: Page := [0xff, 0xff, 0xff, 0xff, 0xff, 0xff, 0xff, 0xff]

  /** Bit j of a bitmap byte. */
  predicate Bit(b: bv8, j: nat)
    requires j < 8
  {
    (b >> j) & 1 == 1
  }

  predicate Taken(p: Page, s: nat)
    requires s < Slots
  {
    Bit(p[s / 8], s % 8)
  }

  /** A byte with all eight bits set is 0xff. */
  lemma ByteFull(b: bv8)
    requires forall j :: 0 <= j < 8 ==> Bit(b, j)
    ensures b == 0xff
  {
    assert Bit(b, 0) && Bit(b, 1) && Bit(b, 2) && Bit(b, 3);
    assert Bit(b, 4) && Bit(b, 5) && Bit(b, 6) && Bit(b, 7);
  }

  /**
    `page_busy` as written: `~busy[k] == 0` for every byte, where `~` acts on
    the byte promoted to int, so it yields -busy[k] - 1.
  */
  predicate PageBusyAsWritten(p: Page)
  {
    forall k :: 0 <= k < 8 ==> -(p[k] as int) - 1 == 0
  }

  /** The promoted complement is never 0: not even a full page counts as busy. */
  lemma PageBusyAsWrittenNever(p: Page)
    ensures !PageBusyAsWritten(p)
    ensures !PageBusyAsWritten(FullPage) && forall s :: 0 <= s < Slots ==> Taken(FullPage, s)
  {
    assert -(p[0] as int) - 1 < 0;
    assert -(FullPage[0] as int) - 1 < 0;
    assert PageBusy(FullPage);
    PageBusyIffFull(FullPage);
  }

  /** `page_busy` as intended: every bitmap byte is 0xff. */
  predicate PageBusy(p: Page)
  {
    forall k :: 0 <= k < 8 ==> p[k] == 0xff
  }

  /** A page is busy exactly when all 64 of its slots are taken. */
  lemma PageBusyIffFull(p: Page)
    ensures PageBusy(p) <==> forall s :: 0 <= s < Slots ==> Taken(p, s)
  {
    if forall s :: 0 <= s < Slots ==> Taken(p, s) {
      forall k | 0 <= k < 8
        ensures p[k] == 0xff
      {
        forall j | 0 <= j < 8
          ensures Bit(p[k], j)
        {
          assert Taken(p, 8 * k + j);
          assert (8 * k + j) / 8 == k && (8 * k + j) % 8 == j;
        }
        ByteFull(p[k]);
      }
    }
  }

  /** The index of the first page that is not busy, or |pages| when all are. */
  function FirstFree(pages: seq<Page>): (q: nat)
    ensures q <= |pages|
    ensures forall m :: 0 <= m < q ==> PageBusy(pages[m])
    ensures q < |pages| ==> !PageBusy(pages[q])
  {
    if |pages| == 0 || !PageBusy(pages[0]) then 0
    else 1 + FirstFree(pages[1..])
  }

  /** The page search of `node_alloc` with `page_busy` as written. */
  function FirstFreeAsWritten(pages: seq<Page>): (q: nat)
    ensures q <= |pages|
  {
    if |pages| == 0 || !PageBusyAsWritten(pages[0]) then 0
    else 1 + FirstFreeAsWritten(pages[1..])
  }

  /**
    As written, the search never leaves the first page: with one full page
    it picks that page, whose byte scan then runs past the 8-byte bitmap,
    where the intended search appends a new page.
  */
  lemma FirstFreeAsWrittenStuck(pages: seq<Page>)
    ensures FirstFreeAsWritten(pages) == 0
    ensures FirstFreeAsWritten([FullPage]) == 0 && FirstFree([FullPage]) == 1
  {
    if |pages| > 0 {
      PageBusyAsWrittenNever(pages[0]);
    }
    PageBusyAsWrittenNever(FullPage);
    assert PageBusy(FullPage);
    assert [FullPage][1..] == [];
  }

  /** The lowest free slot of a page that is not busy. */
  predicate LowestFree(p: Page, s: nat)
  {
    s < Slots && !Taken(p, s) && forall m :: 0 <= m < s ==> Taken(p, m)
  }

  /** Every bit of 0xff is set. */
  lemma FullByteBits(j: nat)
    requires j < 8
    ensures Bit(0xff, j)
  {
  }

  /** The byte scan of `node_alloc`: the first bitmap byte that is not 0xff. */
  method FirstOpenByte(p: Page) returns (k: nat)
    requires !PageBusy(p)
    ensures k < 8 && p[k] != 0xff
    ensures forall m :: 0 <= m < k ==> p[m] == 0xff
  {
    k := 0;
    while p[k] == 0xff
      invariant k < 8
      invariant forall m :: 0 <= m < k ==> p[m] == 0xff
      invariant exists m :: k <= m < 8 && p[m] != 0xff
      decreases 8 - k
    {
      k := k + 1;
    }
  }

  /** The bit scan of `node_alloc`: shift right while the low bit is set. */
  method LowestClearBit(b0: bv8) returns (j: nat)
    requires b0 != 0xff
    ensures j < 8 && !Bit(b0, j)
    ensures forall m :: 0 <= m < j ==> Bit(b0, m)
  {
    var b := b0;
    j := 0;
    while b & 1 == 1
      invariant j < 8 && b == b0 >> j
      invariant forall m :: 0 <= m < j ==> Bit(b0, m)
      decreases 8 - j
    {
      if j == 7 {
        ByteFull(b0);
      }
      b := b >> 1;
      j := j + 1;
    }
  }

  /** `busy |= 1 << j` sets bit j and no other. */
  lemma SetBit(b: bv8, j: nat)
    requires j < 8
    ensures Bit(b | (1 << j), j)
    ensures forall m :: 0 <= m < 8 && m != j ==> Bit(b | (1 << j), m) == Bit(b, m)
  {
  }

  /** Slot 8k + j is the lowest free one when the bytes before k are full and j is the lowest clear bit of byte k. */
  lemma LowestSlot(p: Page, k: nat, j: nat)
    requires k < 8 && j < 8 && !Bit(p[k], j)
    requires forall m :: 0 <= m < k ==> p[m] == 0xff
    requires forall m :: 0 <= m < j ==> Bit(p[k], m)
    ensures LowestFree(p, 8 * k + j)
  {
    assert (8 * k + j) / 8 == k && (8 * k + j) % 8 == j;
    forall m | 0 <= m < 8 * k + j
      ensures Taken(p, m)
    {
      if m / 8 < k {
        FullByteBits(m % 8);
      }
    }
  }

  /** Setting bit j of byte k takes slot 8k + j and leaves every other slot as it was. */
  lemma SetSlot(p: Page, k: nat, j: nat)
    requires k < 8 && j < 8
    ensures Taken(p[k := p[k] | (1 << j)], 8 * k + j)
    ensures forall m :: 0 <= m < Slots && m != 8 * k + j ==> Taken(p[k := p[k] | (1 << j)], m) == Taken(p, m)
  {
    SetBit(p[k], j);
    assert (8 * k + j) / 8 == k && (8 * k + j) % 8 == j;
    forall m | 0 <= m < Slots && m != 8 * k + j
      ensures Taken(p[k := p[k] | (1 << j)], m) == Taken(p, m)
    {
      if m / 8 == k {
        assert m % 8 != j;
      }
    }
  }

  /**
    `node_alloc()` with the intended `page_busy`: take the first page that is
    not busy, or append a fresh page when all are (returning None when that
    allocation fails); find the first byte that is not 0xff, then its lowest
    clear bit, and set it. The result names the page and the slot.
  */
  method NodeAlloc(pages: seq<Page>, grant: bool) returns (r: Option<(nat, nat)>, after: seq<Page>)
    ensures r.None? <==> FirstFree(pages) == |pages| && !grant
    ensures r.None? ==> after == pages
    ensures r.Some? ==>
      var (q, s) := r.value;
      var before := if q < |pages| then pages[q] else EmptyPage;
      q == FirstFree(pages) &&
      |after| == |pages| + (if q == |pages| then 1 else 0) &&
      LowestFree(before, s) && Taken(after[q], s) &&
      (forall m :: 0 <= m < Slots && m != s ==> Taken(after[q], m) == Taken(before, m)) &&
      (forall m :: 0 <= m < |pages| && m != q ==> after[m] == pages[m])
  {
    var q := 0;
    while q < |pages| && PageBusy(pages[q])
      invariant q <= |pages|
      invariant forall m :: 0 <= m < q ==> PageBusy(pages[m])
    {
      q := q + 1;
    }
    after := pages;
    if q == |pages| {
      if !grant {
        return None, after;
      }
      after := after + [EmptyPage];
      assert !PageBusy(after[q]) by {
        assert after[q][0] == 0;
      }
    }
    var page := after[q];
    var k := FirstOpenByte(page);
    var j := LowestClearBit(page[k]);
    LowestSlot(page, k, j);
    SetSlot(page, k, j);
    after := after[q := page[k := page[k] | (1 << j)]];
    r := Some((q, 8 * k + j));
  }
}
