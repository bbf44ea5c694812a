/**
  The working list of cidrips.c (`addr_list_t`): a doubly linked list of
  prefixes, each with the number of source addresses it stands for. The
  links are abstracted away: a list is the sequence of its nodes from head
  to tail, and a node is named by its position.
*/
module ZoneList {
  import opened Options
  import opened Prefix
  import V4Text

  /** One node of the list: the prefix and its `count`. */
  datatype Zone = Zone(prefix: Prefix, count: nat)

  /** Strictly ascending under `addr_compare`: the order `list_push_sorted` keeps. */
  predicate Ascending(zs: seq<Zone>)
  {
    forall i, j {:trigger Compare(zs[i].prefix, zs[j].prefix)} :: 0 <= i < j < |zs| ==> Compare(zs[i].prefix, zs[j].prefix) < 0
  }

  /**
    `list_insert_before`: the item goes in front of the node at position pos;
    pos == |zs| stands for a null `before_this`, which appends at the tail.
  */
  function InsertBefore(zs: seq<Zone>, pos: nat, item: Zone): (r: seq<Zone>)
    requires pos <= |zs|
    ensures |r| == |zs| + 1 && r[pos] == item
    ensures multiset(r) == multiset(zs) + multiset{item}
  {
    assert zs == zs[..pos] + zs[pos..];
    zs[..pos] + [item] + zs[pos..]
  }

  /** `list_remove`: the node at position k is unlinked; the others keep their order. */
  function Remove(zs: seq<Zone>, k: nat): (r: seq<Zone>)
    requires k < |zs|
    ensures |r| == |zs| - 1
    ensures multiset(r) + multiset{zs[k]} == multiset(zs)
  {
    assert zs == zs[..k] + [zs[k]] + zs[k + 1..];
    zs[..k] + zs[k + 1..]
  }

  /** Removing what was just inserted gives the list back. */
  lemma RemoveInsertBefore(zs: seq<Zone>, pos: nat, item: Zone)
    requires pos <= |zs|
    ensures Remove(InsertBefore(zs, pos, item), pos) == zs
  {
    var r := InsertBefore(zs, pos, item);
    assert r[..pos] == zs[..pos];
    assert r[pos + 1..] == zs[pos..];
    assert zs == zs[..pos] + zs[pos..];
  }

  /** Putting a removed node back where it was gives the list back. */
  lemma InsertBeforeRemove(zs: seq<Zone>, k: nat)
    requires k < |zs|
    ensures InsertBefore(Remove(zs, k), k, zs[k]) == zs
  {
    var r := Remove(zs, k);
    assert r[..k] == zs[..k];
    assert r[k..] == zs[k + 1..];
    assert zs == zs[..k] + [zs[k]] + zs[k + 1..];
  }

  /**
    The walk of `list_push_sorted`: the position of the first node that does
    not compare below x, or |zs| when there is none.
  */
  function Scan(zs: seq<Zone>, x: Prefix): (k: nat)
    ensures k <= |zs|
    ensures forall i :: 0 <= i < k ==> Compare(zs[i].prefix, x) < 0
    ensures k < |zs| ==> Compare(zs[k].prefix, x) >= 0
  {
    if |zs| == 0 || Compare(zs[0].prefix, x) >= 0 then 0
    else 1 + Scan(zs[1..], x)
  }

  /**
    `list_push_sorted`: walks to the first node that does not compare below
    the item. If that node compares equal the list is left alone and the
    result is false (the address is a duplicate); otherwise the item is
    linked in front of it (or at the tail) and the result is true.
  */
  function PushSorted(zs: seq<Zone>, item: Zone): (r: (bool, seq<Zone>))
    ensures !r.0 ==> r.1 == zs
    ensures r.0 ==> |r.1| == |zs| + 1 && multiset(r.1) == multiset(zs) + multiset{item}
    ensures r.0 ==> exists pos :: 0 <= pos < |r.1| && r.1[pos] == item && Remove(r.1, pos) == zs
  {
    var k := Scan(zs, item.prefix);
    if k < |zs| && Compare(zs[k].prefix, item.prefix) == 0 then (false, zs)
    else
      RemoveInsertBefore(zs, k, item);
      (true, InsertBefore(zs, k, item))
  }

  /** On an ascending list, the push reports a duplicate exactly when an equal prefix is present. */
  lemma PushSortedDuplicate(zs: seq<Zone>, item: Zone)
    requires Ascending(zs)
    ensures !PushSorted(zs, item).0 <==> exists i :: 0 <= i < |zs| && Compare(zs[i].prefix, item.prefix) == 0
  {
    var k := Scan(zs, item.prefix);
    if j :| 0 <= j < |zs| && Compare(zs[j].prefix, item.prefix) == 0 {
      assert k <= j;
      if k < j {
        CompareSubstitute(zs[j].prefix, item.prefix, zs[k].prefix);
        CompareAntisymmetric(zs[k].prefix, zs[j].prefix);
        CompareAntisymmetric(zs[k].prefix, item.prefix);
      }
    }
  }

  /** An ascending list stays ascending after a push. */
  lemma PushSortedAscending(zs: seq<Zone>, item: Zone)
    requires Ascending(zs)
    ensures Ascending(PushSorted(zs, item).1)
  {
    var k := Scan(zs, item.prefix);
    if !(k < |zs| && Compare(zs[k].prefix, item.prefix) == 0) {
      var r := InsertBefore(zs, k, item);
      assert r == zs[..k] + [item] + zs[k..];
      if k < |zs| {
        CompareAntisymmetric(zs[k].prefix, item.prefix);
      }
      forall i, j | 0 <= i < j < |r|
        ensures Compare(r[i].prefix, r[j].prefix) < 0
      {
        if j < k {
          assert r[i] == zs[i] && r[j] == zs[j];
        } else if j == k {
          assert r[i] == zs[i];
        } else if i > k {
          assert r[i] == zs[i - 1] && r[j] == zs[j - 1];
        } else if i == k {
          assert r[j] == zs[j - 1];
          if j - 1 > k {
            CompareTransitive(item.prefix, zs[k].prefix, zs[j - 1].prefix);
          }
        } else {
          assert r[i] == zs[i] && r[j] == zs[j - 1];
        }
      }
    }
  }

  /** The outcome of folding the input tokens into the list (the ingest loop of `parse_input`). */
  datatype Ingested = BadAddress(index: nat) | Zones(zones: seq<Zone>)

  /**
    The ingest loop of `parse_input` over the tokens already read by
    `addr_parse_v4` (None for a token it refuses): the first refused token
    stops the fold with PARSE_EADDR; a parsed prefix becomes a zone whose
    count is the size of its block, pushed with `list_push_sorted`
    (duplicates are dropped).
  */
  function Ingest(ps: seq<Option<Prefix>>): (r: Ingested)
    ensures r.BadAddress? ==> r.index < |ps| && ps[r.index].None?
    ensures r.BadAddress? ==> forall i :: 0 <= i < r.index ==> ps[i].Some?
    ensures r.Zones? ==> forall i :: 0 <= i < |ps| ==> ps[i].Some?
  {
    if |ps| == 0 then Zones([])
    else
      var front := ps[..|ps| - 1];
      assert forall i :: 0 <= i < |front| ==> front[i] == ps[i];
      match Ingest(front)
      case BadAddress(i) => BadAddress(i)
      case Zones(zs) =>
        match ps[|ps| - 1]
        case None => BadAddress(|ps| - 1)
        case Some(p) => Zones(PushSorted(zs, Zone(p, Weight(p.cidr))).1)
  }

  /** The tokens of the input as `addr_parse_v4` reads them. */
  function ParseAll(toks: seq<string>): (ps: seq<Option<Prefix>>)
    ensures |ps| == |toks|
    ensures forall i :: 0 <= i < |toks| ==> ps[i] == V4Text.ParseV4(toks[i])
  {
    seq(|toks|, i requires 0 <= i < |toks| => V4Text.ParseV4(toks[i]))
  }

  /** Every zone counts the addresses of its block and came from some parsed token. */
  predicate FromTokens(zs: seq<Zone>, ps: seq<Option<Prefix>>)
  {
    forall z :: z in zs ==> (z.count == Weight(z.prefix.cidr) && Some(z.prefix) in ps)
  }

  /** Every parsed token's prefix is present, up to `addr_compare` equality. */
  predicate Covers(zs: seq<Zone>, ps: seq<Option<Prefix>>)
  {
    forall i :: 0 <= i < |ps| && ps[i].Some? ==>
      exists z :: z in zs && Compare(z.prefix, ps[i].value) == 0
  }

  /** A push adds only the item: every zone after it is the item or was there before. */
  lemma PushSortedFrom(zs: seq<Zone>, ps: seq<Option<Prefix>>)
    requires |ps| > 0 && ps[|ps| - 1].Some?
    requires FromTokens(zs, ps[..|ps| - 1])
    ensures var p := ps[|ps| - 1].value;
      FromTokens(PushSorted(zs, Zone(p, Weight(p.cidr))).1, ps)
  {
    var front := ps[..|ps| - 1];
    var p := ps[|ps| - 1].value;
    var item := Zone(p, Weight(p.cidr));
    var r := PushSorted(zs, item);
    forall z | z in r.1
      ensures z.count == Weight(z.prefix.cidr) && Some(z.prefix) in ps
    {
      if z !in zs {
        assert z in multiset(r.1);
      } else {
        assert Some(z.prefix) in front;
        var k :| 0 <= k < |front| && front[k] == Some(z.prefix);
        assert ps[k] == front[k];
      }
    }
  }

  /** A push drops nothing that was in the list. */
  lemma PushSortedKeeps(zs: seq<Zone>, item: Zone)
    ensures forall z :: z in zs ==> z in PushSorted(zs, item).1
  {
    var r := PushSorted(zs, item);
    forall z | z in zs
      ensures z in r.1
    {
      assert z in multiset(zs);
      assert z in multiset(r.1);
    }
  }

  /** After a push on an ascending list, some zone names the item's block. */
  lemma PushSortedHolds(zs: seq<Zone>, item: Zone)
    requires Ascending(zs)
    ensures exists z :: z in PushSorted(zs, item).1 && Compare(z.prefix, item.prefix) == 0
  {
    var r := PushSorted(zs, item);
    if r.0 {
      assert item in multiset(r.1);
      CompareReflexive(item.prefix);
    } else {
      PushSortedDuplicate(zs, item);
      var j :| 0 <= j < |zs| && Compare(zs[j].prefix, item.prefix) == 0;
      assert zs[j] in r.1;
    }
  }

  /** After a push the list still covers the earlier tokens, and it covers the new one. */
  lemma PushSortedCovers(zs: seq<Zone>, ps: seq<Option<Prefix>>)
    requires |ps| > 0 && ps[|ps| - 1].Some?
    requires Ascending(zs) && Covers(zs, ps[..|ps| - 1])
    ensures var p := ps[|ps| - 1].value;
      Covers(PushSorted(zs, Zone(p, Weight(p.cidr))).1, ps)
  {
    var front := ps[..|ps| - 1];
    var p := ps[|ps| - 1].value;
    var item := Zone(p, Weight(p.cidr));
    var r := PushSorted(zs, item).1;
    PushSortedKeeps(zs, item);
    PushSortedHolds(zs, item);
    forall i | 0 <= i < |ps| && ps[i].Some?
      ensures exists z :: z in r && Compare(z.prefix, ps[i].value) == 0
    {
      if i < |front| {
        assert ps[i] == front[i];
      }
    }
  }

  /** The last token of a successful fold was parsed and pushed onto the fold of the others. */
  lemma IngestSnoc(ps: seq<Option<Prefix>>)
    requires |ps| > 0 && Ingest(ps).Zones?
    ensures Ingest(ps[..|ps| - 1]).Zones? && ps[|ps| - 1].Some?
    ensures Ingest(ps).zones == PushSorted(Ingest(ps[..|ps| - 1]).zones, Zone(ps[|ps| - 1].value, Weight(ps[|ps| - 1].value.cidr))).1
  {
  }

  /**
    The ingested list is ascending, holds every token's prefix (up to
    `addr_compare` equality), and holds nothing else.
  */
  lemma {:induction false} IngestSound(ps: seq<Option<Prefix>>)
    requires Ingest(ps).Zones?
    ensures Ascending(Ingest(ps).zones)
    ensures FromTokens(Ingest(ps).zones, ps)
    ensures Covers(Ingest(ps).zones, ps)
  {
    if |ps| > 0 {
      var front := ps[..|ps| - 1];
      IngestSound(front);
      IngestSnoc(ps);
      var p := ps[|ps| - 1].value;
      PushSortedAscending(Ingest(front).zones, Zone(p, Weight(p.cidr)));
      PushSortedFrom(Ingest(front).zones, ps);
      PushSortedCovers(Ingest(front).zones, ps);
    }
  }

  /**
    `list_copy`: appends a copy of every node of src to dst, in order. The
    allocator hands out `avail` more nodes; when it fails the copy stops
    with the nodes made so far and the result is false.
  */
  method Copy(src: seq<Zone>, dst: seq<Zone>, avail: nat) returns (ok: bool, r: seq<Zone>)
    ensures ok <==> avail >= |src|
    ensures ok ==> r == dst + src
    ensures !ok ==> r == dst + src[..avail]
  {
    r := dst;
    var k := 0;
    var left := avail;
    while k < |src|
      invariant 0 <= k <= |src|
      invariant k <= avail && left == avail - k
      invariant r == dst + src[..k]
    {
      if left == 0 {
        return false, r;
      }
      left := left - 1;
      r := r + [src[k]];
      assert src[..k + 1] == src[..k] + [src[k]];
      k := k + 1;
    }
    assert src[..k] == src;
    return true, r;
  }
}
