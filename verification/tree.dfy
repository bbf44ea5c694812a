/**
  `tree_node_find` of libcidrips (`tree.c`): the insert-or-find operation of
  an unbalanced binary search tree, over any key type and comparator. The
  comparator follows the header's convention: cmp(x, y) > 0 when x sorts
  before y, 0 when they are the same key, < 0 when x sorts after y.
*/
module Tree {
  import opened Options

  datatype Tree<K> = Leaf | Node(left: Tree<K>, key: K, right: Tree<K>)

  /** What the code needs of the comparator: antisymmetric, transitive, and 0 only between interchangeable keys. */
  ghost predicate TotalOrder<K(!new)>(cmp: (K, K) -> int)
  {
    (forall a, b :: cmp(a, b) == -cmp(b, a)) &&
    (forall a, b, c :: cmp(a, b) > 0 && cmp(b, c) > 0 ==> cmp(a, c) > 0) &&
    (forall a, b, c :: cmp(a, b) == 0 ==> cmp(a, c) == cmp(b, c))
  }

  function Keys<K(==)>(t: Tree<K>): set<K>
  {
    match t
    case Leaf => {}
    case Node(l, x, r) => Keys(l) + {x} + Keys(r)
  }

  function Size<K(==)>(t: Tree<K>): nat
  {
    match t
    case Leaf => 0
    case Node(l, _, r) => Size(l) + 1 + Size(r)
  }

  /** Every key of the left subtree sorts before its node's key, every key of the right one after. */
  predicate Ordered<K(==)>(t: Tree<K>, cmp: (K, K) -> int)
  {
    match t
    case Leaf => true
    case Node(l, x, r) =>
      Ordered(l, cmp) && Ordered(r, cmp) &&
      (forall y :: y in Keys(l) ==> cmp(y, x) > 0) &&
      (forall y :: y in Keys(r) ==> cmp(x, y) > 0)
  }

  /** The search of `tree_node_find`: the first key on the path from the root that compares equal to k. */
  function Lookup<K(==)>(t: Tree<K>, k: K, cmp: (K, K) -> int): Option<K>
  {
    match t
    case Leaf => None
    case Node(l, x, r) =>
      if cmp(x, k) == 0 then Some(x)
      else if cmp(x, k) > 0 then Lookup(r, k, cmp)
      else Lookup(l, k, cmp)
  }

  /** t2 is t with one empty child slot filled by a leaf holding k: no existing node moves. */
  predicate AddsLeaf<K(==)>(t: Tree<K>, t2: Tree<K>, k: K)
  {
    match t
    case Leaf => t2 == Node(Leaf, k, Leaf)
    case Node(l, x, r) =>
      t2.Node? && t2.key == x &&
      ((t2.left == l && AddsLeaf(r, t2.right, k)) || (t2.right == r && AddsLeaf(l, t2.left, k)))
  }

  /**
    `tree_node_find(root, node)`: walk down from the root, right past a key
    that sorts before k and left otherwise; return the key that compares
    equal if one is met, else hang k at the empty slot where the walk ended
    and return k.
  */
  function FindOrInsert<K(==)>(t: Tree<K>, k: K, cmp: (K, K) -> int): (r: (Tree<K>, K))
    ensures Lookup(t, k, cmp).Some? ==> r == (t, Lookup(t, k, cmp).value)
    ensures Lookup(t, k, cmp).None? ==>
      r.1 == k && AddsLeaf(t, r.0, k) && Keys(r.0) == Keys(t) + {k} && Size(r.0) == Size(t) + 1
  {
    match t
    case Leaf => (Node(Leaf, k, Leaf), k)
    case Node(l, x, r) =>
      if cmp(x, k) == 0 then (t, x)
      else if cmp(x, k) > 0 then
        var (r2, f) := FindOrInsert(r, k, cmp);
        (Node(l, x, r2), f)
      else
        var (l2, f) := FindOrInsert(l, k, cmp);
        (Node(l2, x, r), f)
  }

  /** In an ordered tree the search meets an equal key exactly when the tree holds one. */
  lemma {:induction false} LookupComplete<K(!new)>(t: Tree<K>, k: K, cmp: (K, K) -> int)
    requires TotalOrder(cmp) && Ordered(t, cmp)
    ensures Lookup(t, k, cmp).Some? <==> exists y :: y in Keys(t) && cmp(y, k) == 0
    ensures Lookup(t, k, cmp).Some? ==> Lookup(t, k, cmp).value in Keys(t) && cmp(Lookup(t, k, cmp).value, k) == 0
  {
    match t
    case Leaf =>
    case Node(l, x, r) =>
      LookupComplete(l, k, cmp);
      LookupComplete(r, k, cmp);
      if cmp(x, k) > 0 {
        assert forall y :: y in Keys(l) ==> cmp(y, k) != 0;
      } else if cmp(x, k) < 0 {
        assert forall y :: y in Keys(r) ==> cmp(y, k) != 0;
      }
  }

  /** Inserting into an ordered tree keeps it ordered. */
  lemma {:induction false} InsertOrdered<K(!new)>(t: Tree<K>, k: K, cmp: (K, K) -> int)
    requires TotalOrder(cmp) && Ordered(t, cmp)
    ensures Ordered(FindOrInsert(t, k, cmp).0, cmp)
  {
    match t
    case Leaf =>
    case Node(l, x, r) =>
      if cmp(x, k) > 0 {
        InsertOrdered(r, k, cmp);
      } else if cmp(x, k) < 0 {
        InsertOrdered(l, k, cmp);
        assert cmp(k, x) > 0;
      }
  }

  /** The keys from left to right. */
  function InOrder<K(==)>(t: Tree<K>): (s: seq<K>)
    ensures |s| == Size(t)
  {
    match t
    case Leaf => []
    case Node(l, x, r) => InOrder(l) + [x] + InOrder(r)
  }

  lemma {:induction false} InOrderKeys<K>(t: Tree<K>)
    ensures forall i :: 0 <= i < |InOrder(t)| ==> InOrder(t)[i] in Keys(t)
  {
    match t
    case Leaf =>
    case Node(l, x, r) =>
      InOrderKeys(l);
      InOrderKeys(r);
      var s := InOrder(t);
      assert forall i :: 0 <= i < |InOrder(l)| ==> s[i] == InOrder(l)[i];
      assert forall i :: |InOrder(l)| < i < |s| ==> s[i] == InOrder(r)[i - |InOrder(l)| - 1];
  }

  predicate Ascending<K(==)>(s: seq<K>, cmp: (K, K) -> int)
  {
    forall i, j :: 0 <= i < j < |s| ==> cmp(s[i], s[j]) > 0
  }

  /** The walk of an ordered tree is strictly ascending. */
  lemma {:induction false} OrderedAscending<K(!new)>(t: Tree<K>, cmp: (K, K) -> int)
    requires TotalOrder(cmp) && Ordered(t, cmp)
    ensures Ascending(InOrder(t), cmp)
  {
    match t
    case Leaf =>
    case Node(l, x, r) =>
      OrderedAscending(l, cmp);
      OrderedAscending(r, cmp);
      InOrderKeys(l);
      InOrderKeys(r);
      AscendingJoin(InOrder(l), x, InOrder(r), cmp);
  }

  /** Two ascending runs with a key between them form one ascending run. */
  lemma AscendingJoin<K(!new)>(sl: seq<K>, x: K, sr: seq<K>, cmp: (K, K) -> int)
    requires TotalOrder(cmp) && Ascending(sl, cmp) && Ascending(sr, cmp)
    requires forall i :: 0 <= i < |sl| ==> cmp(sl[i], x) > 0
    requires forall j :: 0 <= j < |sr| ==> cmp(x, sr[j]) > 0
    ensures Ascending(sl + [x] + sr, cmp)
  {
    var s := sl + [x] + sr;
    var n := |sl|;
    forall i, j | 0 <= i < j < |s|
      ensures cmp(s[i], s[j]) > 0
    {
      if j < n {
        assert s[i] == sl[i] && s[j] == sl[j];
      } else if i > n {
        assert s[i] == sr[i - n - 1] && s[j] == sr[j - n - 1];
      } else if i == n {
        assert s[j] == sr[j - n - 1];
      } else if j == n {
        assert s[i] == sl[i];
      } else {
        assert s[i] == sl[i] && s[j] == sr[j - n - 1];
        assert cmp(s[i], x) > 0 && cmp(x, s[j]) > 0;
      }
    }
  }

  /** A property every key has keeps holding after an insert of a key that has it. */
  lemma InsertKeepsAll<K>(t: Tree<K>, k: K, cmp: (K, K) -> int, p: K -> bool)
    requires forall y :: y in Keys(t) ==> p(y)
    requires p(k)
    ensures forall y :: y in Keys(FindOrInsert(t, k, cmp).0) ==> p(y)
  {
    if Lookup(t, k, cmp).None? {
      assert Keys(FindOrInsert(t, k, cmp).0) == Keys(t) + {k};
    }
  }
}
