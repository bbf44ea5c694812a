/**
  The doubly linked zone list of libcidrips (`list.c`), with the list from
  `head` to `tail` seen as the sequence of its items. A `malloc` is a
  parameter: None where it fails, otherwise what the new memory holds in
  the fields the code does not set.
*/
module LibList {
  import opened Options
  import opened LibAddr
  import Bc134

  /**
    `addr_list_t` without its links: the address, the IPv4 and IPv6 address
    counts (`addrcount_v4`, `addrcount_v6`) and the `fully` flag.
  */
  datatype Item = Item(addr: Addr, countV4: nat, countV6: seq<Bc134.Byte>, fully: int)

  /**
    `addr_list_item_new()`: on success both counters are zero (the links are
    NULL); the address and `fully` keep whatever the memory held.
  */
  function ItemNew(mem: Option<(Addr, int)>): (r: Option<Item>)
    ensures r.None? <==> mem.None?
    ensures r.Some? ==> r.value.countV4 == 0 && Bc134.AllZero(r.value.countV6) && |r.value.countV6| == Bc134.Size
  {
    match mem
    case None => None
    case Some((junk, junkFully)) => Some(Item(junk, 0, Bc134.Zeros(Bc134.Size), junkFully))
  }

  /** `addr_list_push(head, tail, item)`: the item becomes the tail, and the head too if the list was empty. */
  function Push(list: seq<Item>, item: Item): (r: seq<Item>)
    ensures |r| == |list| + 1 && r[|list|] == item && r[..|list|] == list
  {
    list + [item]
  }

  /**
    `addr_list_cut(ohead, otail, nhead, ntail, head, tail)` for the run of
    items h..t: the source keeps the items before and after the run, and
    the target, which must be empty, receives the run.
  */
  function Cut(list: seq<Item>, target: seq<Item>, h: nat, t: nat): (r: (seq<Item>, seq<Item>))
    requires h <= t < |list|
    requires target == []
    ensures |r.0| + |r.1| == |list| && |r.1| == t - h + 1
  {
    (list[..h] + list[t + 1..], list[h..t + 1])
  }

  /** Putting the cut run back where it was gives the original list. */
  lemma CutSpliceBack(list: seq<Item>, h: nat, t: nat)
    requires h <= t < |list|
    ensures var (rest, run) := Cut(list, [], h, t);
            rest[..h] + run + rest[h..] == list
  {
    var (rest, run) := Cut(list, [], h, t);
    assert rest[..h] == list[..h];
    assert rest[h..] == list[t + 1..];
    assert list[..h] + list[h..t + 1] + list[t + 1..] == list;
  }

  /** `addr_list_remove(head, tail, item)`: the item at position k is cut out; the others keep their order. */
  function Remove(list: seq<Item>, k: nat): (r: seq<Item>)
    requires k < |list|
    ensures |r| == |list| - 1
    ensures multiset(r) + multiset{list[k]} == multiset(list)
    ensures forall m :: 0 <= m < |r| ==> r[m] == list[if m < k then m else m + 1]
  {
    var r := Cut(list, [], k, k).0;
    assert list == list[..k] + [list[k]] + list[k + 1..];
    r
  }

  /** Removing the tail undoes a push. */
  lemma RemovePush(list: seq<Item>, item: Item)
    ensures Remove(Push(list, item), |list|) == list
  {
  }

  /** Putting the removed item back at its position gives the original list. */
  lemma RemoveInsertBack(list: seq<Item>, k: nat)
    requires k < |list|
    ensures Remove(list, k)[..k] + [list[k]] + Remove(list, k)[k..] == list
  {
    CutSpliceBack(list, k, k);
  }

  /** The count of an item: its address's zone weight for its version; the other counter stays zero. */
  function Weighed(a: Addr): Item
    requires Valid(a) && a.cidr <= (if a.verno == V4 then 32 else 128)
  {
    if a.verno == V4 then Item(a, ZoneV4Weight(a.cidr), Bc134.Zeros(Bc134.Size), 1)
    else Item(a, 0, ZoneV6Weight(a.cidr), 1)
  }

  predicate Weighable(walk: seq<Addr>)
  {
    forall k :: 0 <= k < |walk| ==> Valid(walk[k]) && walk[k].cidr <= (if walk[k].verno == V4 then 32 else 128)
  }

  /** The number of leading successful allocations, at most n. */
  function Granted(mem: seq<Option<(Addr, int)>>, n: nat): (g: nat)
    requires n <= |mem|
    ensures g <= n
    ensures forall k :: 0 <= k < g ==> mem[k].Some?
    ensures g < n ==> mem[g].None?
  {
    if n == 0 then 0
    else if Granted(mem, n - 1) == n - 1 && mem[n - 1].Some? then n
    else Granted(mem, n - 1)
  }

  /**
    `addr_list_push_from_addr_tree(head, tail, tree)` over the tree's walk
    order: each address becomes a new item, with its zone weight as count
    and `fully` 1, pushed at the tail. A failed allocation returns 0, with
    the items pushed so far left in the list.
  */
  method PushFromTree(list: seq<Item>, walk: seq<Addr>, mem: seq<Option<(Addr, int)>>)
    returns (ok: bool, r: seq<Item>)
    requires Weighable(walk) && |mem| >= |walk|
    ensures ok <==> Granted(mem, |walk|) == |walk|
    ensures |r| == |list| + Granted(mem, |walk|) && r[..|list|] == list
    ensures forall k :: 0 <= k < |r| - |list| ==> r[|list| + k] == Weighed(walk[k])
  {
    r := list;
    var k := 0;
    while k < |walk|
      invariant 0 <= k <= |walk| && Granted(mem, k) == k
      invariant |r| == |list| + k && r[..|list|] == list
      invariant forall m :: 0 <= m < k ==> r[|list| + m] == Weighed(walk[m])
    {
      var item := ItemNew(mem[k]);
      if item.None? {
        assert Granted(mem, k + 1) == k;
        GrantedStops(mem, k + 1, |walk|);
        return false, r;
      }
      var it := item.value.(addr := walk[k]);
      if it.addr.verno == V4 {
        it := it.(countV4 := ZoneV4Weight(it.addr.cidr));
      } else {
        it := it.(countV6 := ZoneV6Weight(it.addr.cidr));
      }
      it := it.(fully := 1);
      r := Push(r, it);
      k := k + 1;
    }
    ok := true;
  }

  /** Once an allocation fails, no later count of allocations gets past it. */
  lemma {:induction false} GrantedStops(mem: seq<Option<(Addr, int)>>, n: nat, m: nat)
    requires n <= m <= |mem| && Granted(mem, n) < n
    ensures Granted(mem, m) == Granted(mem, n)
    decreases m - n
  {
    if m > n {
      GrantedStops(mem, n, m - 1);
    }
  }

  /** The copy of an item: the address and the count of its version; `fully` is not copied. */
  predicate CopiedFrom(c: Item, p: Item)
  {
    c.addr == p.addr &&
    (p.addr.verno == V4 ==> c.countV4 == p.countV4) &&
    (p.addr.verno == V6 ==> c.countV6 == p.countV6)
  }

  /**
    `addr_list_copy(ohead, otail, nhead, ntail)`: a new item per item of the
    source, in order, holding its address and the count of its version;
    returns 1, or 0 at the first failed allocation with the items copied
    so far in the target. The target must start empty.
  */
  method Copy(src: seq<Item>, target: seq<Item>, mem: seq<Option<(Addr, int)>>) returns (ok: bool, r: seq<Item>)
    requires target == [] && |mem| >= |src|
    ensures ok <==> Granted(mem, |src|) == |src|
    ensures |r| == Granted(mem, |src|)
    ensures forall k :: 0 <= k < |r| ==> CopiedFrom(r[k], src[k])
    ensures forall k :: 0 <= k < |r| ==> r[k].fully == mem[k].value.1
  {
    r := target;
    var k := 0;
    while k < |src|
      invariant 0 <= k <= |src| && Granted(mem, k) == k
      invariant |r| == k
      invariant forall m :: 0 <= m < k ==> CopiedFrom(r[m], src[m]) && r[m].fully == mem[m].value.1
    {
      var item := ItemNew(mem[k]);
      if item.None? {
        assert Granted(mem, k + 1) == k;
        GrantedStops(mem, k + 1, |src|);
        return false, r;
      }
      var it := item.value.(addr := src[k].addr);
      if it.addr.verno == V4 {
        it := it.(countV4 := src[k].countV4);
      } else {
        it := it.(countV6 := src[k].countV6);
      }
      r := Push(r, it);
      k := k + 1;
    }
    ok := true;
  }

  /** `addr_list_free(head, tail)`: every item is released, and head and tail are left NULL. */
  method Free(list: seq<Item>) returns (released: nat, r: seq<Item>)
    ensures released == |list| && r == []
  {
    released := 0;
    var p := list;
    while p != []
      invariant released + |p| == |list|
    {
      p := p[1..];
      released := released + 1;
    }
    r := [];
  }

  /** `addr_list_size(head, tail)`: the number of items reached from the head. */
  method Size(list: seq<Item>) returns (size: nat)
    ensures size == |list|
  {
    size := 0;
    var p := list;
    while p != []
      invariant size + |p| == |list|
    {
      size := size + 1;
      p := p[1..];
    }
  }
}
