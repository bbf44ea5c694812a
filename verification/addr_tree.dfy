/**
  The tree of `tree_node_find` with the address prefixes of cidrips.c as
  keys, ordered by `addr_compare`: a key that sorts before the node's key
  goes right of it, as `addrcmp_*` of the header returns 1 when its first
  argument is the smaller.
*/
module AddrTree {
  import opened Options
  import opened Prefix
  import opened Tree
  import LibAddr

  /** The tree's comparator: positive when a sorts before b under `addr_compare`. */
  function Before(a: Prefix, b: Prefix): (r: int)
    ensures r == 0 <==> a.cidr == b.cidr && Mask(a.addr, a.cidr) == Mask(b.addr, b.cidr)
  {
    Compare(b, a)
  }

  /** `addr_compare` meets what the tree needs of its comparator. */
  lemma BeforeTotal()
    ensures TotalOrder(Before)
  {
    forall a, b
      ensures Before(a, b) == -Before(b, a)
    {
      CompareAntisymmetric(a, b);
    }
    forall a, b, c | Before(a, b) > 0 && Before(b, c) > 0
      ensures Before(a, c) > 0
    {
      CompareAntisymmetric(a, b);
      CompareAntisymmetric(b, c);
      CompareAntisymmetric(a, c);
      CompareTransitive(a, b, c);
    }
    forall a, b, c | Before(a, b) == 0
      ensures Before(a, c) == Before(b, c)
    {
      CompareAntisymmetric(a, b);
      CompareSubstitute(a, b, c);
      CompareAntisymmetric(a, c);
      CompareAntisymmetric(b, c);
    }
  }

  /** Inserting a prefix into an ordered tree keeps it ordered, and its walk ascends under `addr_compare`. */
  lemma InsertAscending(t: Tree<Prefix>, p: Prefix)
    requires Ordered(t, Before)
    ensures Ordered(FindOrInsert(t, p, Before).0, Before)
    ensures forall i, j :: 0 <= i < j < |InOrder(FindOrInsert(t, p, Before).0)| ==>
      Compare(InOrder(FindOrInsert(t, p, Before).0)[i], InOrder(FindOrInsert(t, p, Before).0)[j]) < 0
  {
    BeforeTotal();
    InsertOrdered(t, p, Before);
    OrderedAscending(FindOrInsert(t, p, Before).0, Before);
  }

  /**
    A prefix naming the same block as a key already in an ordered tree finds
    that key and leaves the tree as it was; any other prefix is added.
  */
  lemma InsertDuplicate(t: Tree<Prefix>, p: Prefix)
    requires Ordered(t, Before)
    ensures (exists q :: q in Keys(t) && Compare(q, p) == 0) ==>
      FindOrInsert(t, p, Before).0 == t && FindOrInsert(t, p, Before).1 in Keys(t) &&
      Compare(FindOrInsert(t, p, Before).1, p) == 0
    ensures (forall q :: q in Keys(t) ==> Compare(q, p) != 0) ==>
      FindOrInsert(t, p, Before).1 == p && Keys(FindOrInsert(t, p, Before).0) == Keys(t) + {p}
  {
    BeforeTotal();
    LookupComplete(t, p, Before);
    forall q | q in Keys(t)
      ensures Compare(q, p) == 0 <==> Before(q, p) == 0
    {
      CompareAntisymmetric(q, p);
    }
  }

  /** One version per tree (`tree.c` asserts it on every step): inserting an address of that version keeps it so. */
  lemma InsertKeepsVersion(t: Tree<LibAddr.Addr>, a: LibAddr.Addr, cmp: (LibAddr.Addr, LibAddr.Addr) -> int, v: LibAddr.Version)
    requires forall y :: y in Keys(t) ==> y.verno == v
    requires a.verno == v
    ensures forall y :: y in Keys(FindOrInsert(t, a, cmp).0) ==> y.verno == v
  {
    InsertKeepsAll(t, a, cmp, (y: LibAddr.Addr) => y.verno == v);
  }
}
