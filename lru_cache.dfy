/**
 * The LRUCache of LRUcache.h: a doubly linked recency list between two
 * sentinels, `head` and `tail`, most recently used entry first, and an
 * unordered_map from a key to the list node that holds it. A list node
 * holds a pointer to a skip-list node; the cache learns a stored node's key
 * only through `key()`, which the model takes as the function `keyOf`.
 *
 * The LruNode objects live in an arena `nodes`: an `LruNode*` is an index
 * into it, node 0 is `head` and node 1 is `tail`. The ghost sequence
 * `order` lists the ids the `next` links visit from head to tail.
 */
module LruCaches {

  import opened Wrappers
  import opened KeyOrder

  const Head: nat := 0
  const Tail: nat := 1

  /** A list node: the skip-list node it points to (None for the two
      sentinels, which are built with NULL) and its two links. The sentinels'
      outer links (`head->prev`, `tail->next`) are NULL in the source and are
      never followed; here they point back at the sentinel itself. */
  datatype LruNode<P> = LruNode(node: Option<P>, prev: nat, next: nat)

  /** The node at position p of the list: head before the first entry,
      tail after the last. */
  function At(order: seq<nat>, p: int): nat
    requires -1 <= p <= |order|
  {
    if p == -1 then Head else if p == |order| then Tail else order[p]
  }

  /** Every link of every node names a node of the arena. */
  predicate Closed<P>(nodes: seq<LruNode<P>>)
  {
    forall y :: 0 <= y < |nodes| ==> nodes[y].prev < |nodes| && nodes[y].next < |nodes|
  }

  /** The arena holds the list `order`: entries are distinct non-sentinel
      nodes that carry a skip-list node, and each pair of neighbours, the
      sentinels included, links to each other both ways. */
  ghost predicate Linked<P>(nodes: seq<LruNode<P>>, order: seq<nat>)
  {
    |nodes| >= 2 && Closed(nodes) && Distinct(order)
    && (forall p :: 0 <= p < |order| ==> 2 <= order[p] < |nodes| && nodes[order[p]].node.Some?)
    && (forall p :: -1 <= p < |order| ==>
          nodes[At(order, p)].next == At(order, p + 1) && nodes[At(order, p + 1)].prev == At(order, p))
  }

  /** The links between positions q and q + 1. */
  lemma LinkAt<P>(nodes: seq<LruNode<P>>, order: seq<nat>, q: int)
    requires Linked(nodes, order) && -1 <= q < |order|
    ensures nodes[At(order, q)].next == At(order, q + 1) && nodes[At(order, q + 1)].prev == At(order, q)
  {
  }

  /** Distinct positions hold distinct nodes. */
  lemma AtInjective(order: seq<nat>, i: int, j: int)
    requires Distinct(order) && forall p :: 0 <= p < |order| ==> order[p] >= 2
    requires -1 <= i <= |order| && -1 <= j <= |order| && i != j
    ensures At(order, i) != At(order, j)
  {
  }

  /** remove(LruNode* cur): `cur->prev->next = cur->next`, then
      `cur->next->prev = cur->prev`. */
  function Unlink<P>(nodes: seq<LruNode<P>>, x: nat): (r: seq<LruNode<P>>)
    requires Closed(nodes) && x < |nodes|
    ensures |r| == |nodes|
  {
    var cur := nodes[x];
    var nodes1 := nodes[cur.prev := nodes[cur.prev].(next := cur.next)];
    nodes1[cur.next := nodes1[cur.next].(prev := cur.prev)]
  }

  /** push_front(LruNode* cur): `cur->prev = head`, `cur->next = head->next`,
      `head->next->prev = cur`, `head->next = cur`. */
  function LinkFront<P>(nodes: seq<LruNode<P>>, x: nat): (r: seq<LruNode<P>>)
    requires Closed(nodes) && Head < |nodes| && x < |nodes|
    ensures |r| == |nodes|
  {
    var nodes1 := nodes[x := nodes[x].(prev := Head)];
    var nodes2 := nodes1[x := nodes1[x].(next := nodes1[Head].next)];
    var nodes3 := nodes2[nodes2[Head].next := nodes2[nodes2[Head].next].(prev := x)];
    nodes3[Head := nodes3[Head].(next := x)]
  }

  /** What remove(cur) does to node y: the node before cur now links
      forward past it, the node after cur back past it, nothing else moves. */
  lemma UnlinkAt<P>(nodes: seq<LruNode<P>>, x: nat, y: nat)
    requires Closed(nodes) && x < |nodes| && y < |nodes| && nodes[x].prev != nodes[x].next
    ensures Unlink(nodes, x)[y].node == nodes[y].node
    ensures Unlink(nodes, x)[y].next == if y == nodes[x].prev then nodes[x].next else nodes[y].next
    ensures Unlink(nodes, x)[y].prev == if y == nodes[x].next then nodes[x].prev else nodes[y].prev
  {
  }

  /** What push_front(cur) does to node y, f being head's old successor. */
  lemma LinkFrontAt<P>(nodes: seq<LruNode<P>>, x: nat, y: nat)
    requires Closed(nodes) && Head < |nodes| && x < |nodes| && y < |nodes|
    requires x != Head && nodes[Head].next != x && nodes[Head].next != Head
    ensures LinkFront(nodes, x)[y].node == nodes[y].node
    ensures LinkFront(nodes, x)[y].next ==
      if y == Head then x else if y == x then nodes[Head].next else nodes[y].next
    ensures LinkFront(nodes, x)[y].prev ==
      if y == x then Head else if y == nodes[Head].next then x else nodes[y].prev
  {
  }

  lemma AtRemoveAt(order: seq<nat>, p: nat, q: int)
    requires p < |order| && -1 <= q <= |order| - 1
    ensures At(RemoveAt(order, p), q) == At(order, if q < p then q else q + 1)
  {
  }

  /** After remove(cur) for the entry at position p, positions q and q + 1
      of the shortened list link to each other both ways. */
  lemma UnlinkLinkAt<P>(nodes: seq<LruNode<P>>, order: seq<nat>, p: nat, q: int)
    requires Linked(nodes, order) && p < |order| && -1 <= q < |order| - 1
    ensures var r, order' := Unlink(nodes, order[p]), RemoveAt(order, p);
      r[At(order', q)].next == At(order', q + 1) && r[At(order', q + 1)].prev == At(order', q)
  {
    var x := order[p];
    LinkAt(nodes, order, p - 1);
    LinkAt(nodes, order, p);
    AtInjective(order, p - 1, p + 1);
    var i, j := if q < p then q else q + 1, if q + 1 < p then q + 1 else q + 2;
    AtRemoveAt(order, p, q);
    AtRemoveAt(order, p, q + 1);
    UnlinkAt(nodes, x, At(order, i));
    UnlinkAt(nodes, x, At(order, j));
    if i != p - 1 {
      AtInjective(order, i, p - 1);
      LinkAt(nodes, order, i);
    }
    if j != p + 1 {
      AtInjective(order, j, p + 1);
      LinkAt(nodes, order, j - 1);
    }
  }

  /** Unlinking the entry at position p leaves the list without it, and no
      node's skip-list pointer changes. */
  lemma UnlinkLinked<P>(nodes: seq<LruNode<P>>, order: seq<nat>, p: nat)
    requires Linked(nodes, order) && p < |order|
    ensures Linked(Unlink(nodes, order[p]), RemoveAt(order, p))
    ensures forall y :: 0 <= y < |nodes| ==> Unlink(nodes, order[p])[y].node == nodes[y].node
  {
    var x := order[p];
    var order' := RemoveAt(order, p);
    LinkAt(nodes, order, p - 1);
    LinkAt(nodes, order, p);
    AtInjective(order, p - 1, p + 1);
    var r := Unlink(nodes, x);
    forall y | 0 <= y < |nodes|
      ensures r[y].node == nodes[y].node && r[y].prev < |r| && r[y].next < |r|
    {
      UnlinkAt(nodes, x, y);
    }
    forall q | -1 <= q < |order'|
      ensures r[At(order', q)].next == At(order', q + 1) && r[At(order', q + 1)].prev == At(order', q)
    {
      UnlinkLinkAt(nodes, order, p, q);
    }
  }

  /** After push_front(cur), positions q and q + 1 of the lengthened list
      link to each other both ways. */
  lemma LinkFrontLinkAt<P>(nodes: seq<LruNode<P>>, order: seq<nat>, x: nat, q: int)
    requires Linked(nodes, order) && 2 <= x < |nodes| && x !in order && -1 <= q < |order| + 1
    ensures var r, order' := LinkFront(nodes, x), [x] + order;
      r[At(order', q)].next == At(order', q + 1) && r[At(order', q + 1)].prev == At(order', q)
  {
    var order' := [x] + order;
    var f := At(order, 0);
    LinkAt(nodes, order, -1);
    assert f != Head && f != x;
    if q == -1 {
      LinkFrontAt(nodes, x, Head);
      LinkFrontAt(nodes, x, x);
    } else if q == 0 {
      assert At(order', 1) == f;
      LinkFrontAt(nodes, x, x);
      LinkFrontAt(nodes, x, f);
    } else {
      var u, v := At(order, q - 1), At(order, q);
      assert At(order', q) == u && At(order', q + 1) == v;
      LinkAt(nodes, order, q - 1);
      LinkFrontAt(nodes, x, u);
      LinkFrontAt(nodes, x, v);
      AtInjective(order, q - 1, -1);
      AtInjective(order, q, -1);
      AtInjective(order, q, 0);
    }
  }

  /** Pushing a node that is not on the list to the front makes it the
      first entry, and no node's skip-list pointer changes. */
  lemma LinkFrontLinked<P>(nodes: seq<LruNode<P>>, order: seq<nat>, x: nat)
    requires Linked(nodes, order) && 2 <= x < |nodes| && x !in order && nodes[x].node.Some?
    ensures Linked(LinkFront(nodes, x), [x] + order)
    ensures forall y :: 0 <= y < |nodes| ==> LinkFront(nodes, x)[y].node == nodes[y].node
  {
    var order' := [x] + order;
    LinkAt(nodes, order, -1);
    var r := LinkFront(nodes, x);
    forall y | 0 <= y < |nodes|
      ensures r[y].node == nodes[y].node && r[y].prev < |r| && r[y].next < |r|
    {
      LinkFrontAt(nodes, x, y);
    }
    forall q | -1 <= q < |order'|
      ensures r[At(order', q)].next == At(order', q + 1) && r[At(order', q + 1)].prev == At(order', q)
    {
      LinkFrontLinkAt(nodes, order, x, q);
    }
    assert Distinct(order') by {
      forall a, b | 0 <= a < b < |order'|
        ensures order'[a] != order'[b]
      {
        if a > 0 {
          assert order'[a] == order[a - 1] && order'[b] == order[b - 1];
        } else {
          assert order'[b] in order;
        }
      }
    }
  }

  /** The skip-list pointers the nodes of `order` hold, in order. */
  ghost function Payloads<P>(nodes: seq<LruNode<P>>, order: seq<nat>): (es: seq<P>)
    requires Linked(nodes, order)
    ensures |es| == |order|
  {
    seq(|order|, p requires 0 <= p < |order| => nodes[order[p]].node.value)
  }

  /** Entry p of the list after entry x is rewired to the front (x at
      position p), with every node keeping its pointer except x, which may
      be given a new one. */
  lemma PayloadsPromoted<P>(nodes: seq<LruNode<P>>, order: seq<nat>, nodes': seq<LruNode<P>>, p: nat)
    requires Linked(nodes, order) && p < |order| && |nodes'| == |nodes|
    requires Linked(nodes', [order[p]] + RemoveAt(order, p)) && nodes'[order[p]].node.Some?
    requires forall y :: 0 <= y < |nodes| && y != order[p] ==> nodes'[y].node == nodes[y].node
    ensures Payloads(nodes', [order[p]] + RemoveAt(order, p))
         == [nodes'[order[p]].node.value] + RemoveAt(Payloads(nodes, order), p)
  {
    var order' := [order[p]] + RemoveAt(order, p);
    var a, b := Payloads(nodes', order'), [nodes'[order[p]].node.value] + RemoveAt(Payloads(nodes, order), p);
    forall q | 0 <= q < |a|
      ensures a[q] == b[q]
    {
      if q > 0 {
        var i := if q - 1 < p then q - 1 else q;
        assert order'[q] == order[i] && b[q] == Payloads(nodes, order)[i];
        assert order[i] != order[p];
      }
    }
  }

  /** The list without entry p, every node keeping its pointer. */
  lemma PayloadsRemoved<P>(nodes: seq<LruNode<P>>, order: seq<nat>, nodes': seq<LruNode<P>>, p: nat)
    requires Linked(nodes, order) && p < |order| && |nodes'| == |nodes|
    requires Linked(nodes', RemoveAt(order, p))
    requires forall y :: 0 <= y < |nodes| ==> nodes'[y].node == nodes[y].node
    ensures Payloads(nodes', RemoveAt(order, p)) == RemoveAt(Payloads(nodes, order), p)
  {
    var a, b := Payloads(nodes', RemoveAt(order, p)), RemoveAt(Payloads(nodes, order), p);
    forall q | 0 <= q < |a|
      ensures a[q] == b[q]
    {
    }
  }

  /** The list with node x pushed in front, every other node keeping its
      pointer. */
  lemma PayloadsPushed<P>(nodes: seq<LruNode<P>>, order: seq<nat>, nodes': seq<LruNode<P>>, x: nat)
    requires Linked(nodes, order) && |nodes'| >= |nodes| && Linked(nodes', [x] + order)
    requires x < |nodes'| && nodes'[x].node.Some?
    requires forall y :: 0 <= y < |nodes| && y != x ==> nodes'[y].node == nodes[y].node
    ensures Payloads(nodes', [x] + order) == [nodes'[x].node.value] + Payloads(nodes, order)
  {
    var a, b := Payloads(nodes', [x] + order), [nodes'[x].node.value] + Payloads(nodes, order);
    forall q | 0 <= q < |a|
      ensures a[q] == b[q]
    {
      if q > 0 {
        assert ([x] + order)[0] == x && ([x] + order)[q] == order[q - 1];
      }
    }
  }

  /** Giving the entry at position p a new pointer keeps the list and
      changes that one pointer. */
  lemma SetPayload<P>(nodes: seq<LruNode<P>>, order: seq<nat>, p: nat, v: P)
    requires Linked(nodes, order) && p < |order|
    ensures Linked(nodes[order[p] := nodes[order[p]].(node := Some(v))], order)
    ensures Payloads(nodes[order[p] := nodes[order[p]].(node := Some(v))], order) == Payloads(nodes, order)[p := v]
  {
    var nodes' := nodes[order[p] := nodes[order[p]].(node := Some(v))];
    assert Linked(nodes', order);
    var a, b := Payloads(nodes', order), Payloads(nodes, order)[p := v];
    forall q | 0 <= q < |order|
      ensures a[q] == b[q]
    {
      if q != p {
        assert order[q] != order[p];
      }
    }
  }

  /** The keys of an entry list, through `keyOf`. */
  function EntryKeys<K, P>(keyOf: P -> K, es: seq<P>): (ks: seq<K>)
    ensures |ks| == |es| && forall p :: 0 <= p < |es| ==> ks[p] == keyOf(es[p])
  {
    seq(|es|, p requires 0 <= p < |es| => keyOf(es[p]))
  }

  /** The map and the list agree: the key of entry p maps to the node at
      position p, and the map holds no other key. */
  ghost predicate Agree<K, P>(keyOf: P -> K, es: seq<P>, order: seq<nat>, umap: map<K, nat>)
    requires |es| == |order|
  {
    (forall p :: 0 <= p < |es| ==> keyOf(es[p]) in umap && umap[keyOf(es[p])] == order[p])
    && (forall k :: k in umap ==> k in EntryKeys(keyOf, es))
  }

  /** Agreement with distinct nodes makes the keys distinct. */
  lemma AgreeDistinct<K, P>(keyOf: P -> K, es: seq<P>, order: seq<nat>, umap: map<K, nat>)
    requires |es| == |order| && Distinct(order) && Agree(keyOf, es, order, umap)
    ensures forall a, b :: 0 <= a < b < |es| ==> keyOf(es[a]) != keyOf(es[b])
  {
    forall a, b | 0 <= a < b < |es|
      ensures keyOf(es[a]) != keyOf(es[b])
    {
      assert umap[keyOf(es[a])] == order[a] && umap[keyOf(es[b])] == order[b];
    }
  }

  /** Moving entry p to the front, with its pointer replaced by one for the
      same key, keeps map and list agreeing. */
  lemma AgreeAfterPromote<K, P>(keyOf: P -> K, es: seq<P>, order: seq<nat>, umap: map<K, nat>, p: nat, v: P)
    requires |es| == |order| && Agree(keyOf, es, order, umap) && p < |es| && keyOf(v) == keyOf(es[p])
    ensures Agree(keyOf, [v] + RemoveAt(es, p), [order[p]] + RemoveAt(order, p), umap)
  {
    var es', order' := [v] + RemoveAt(es, p), [order[p]] + RemoveAt(order, p);
    forall q | 0 <= q < |es'|
      ensures keyOf(es'[q]) in umap && umap[keyOf(es'[q])] == order'[q]
    {
      if q > 0 {
        var i := if q - 1 < p then q - 1 else q;
        assert es'[q] == es[i] && order'[q] == order[i];
      }
    }
    forall k | k in umap
      ensures k in EntryKeys(keyOf, es')
    {
      var i :| 0 <= i < |es| && EntryKeys(keyOf, es)[i] == k;
      var q := if i == p then 0 else if i < p then i + 1 else i;
      assert EntryKeys(keyOf, es')[q] == k;
    }
  }

  /** Dropping entry p from the list and its key from the map keeps them
      agreeing. */
  lemma AgreeAfterRemove<K, P>(keyOf: P -> K, es: seq<P>, order: seq<nat>, umap: map<K, nat>, p: nat)
    requires |es| == |order| && Distinct(order) && Agree(keyOf, es, order, umap) && p < |es|
    ensures Agree(keyOf, RemoveAt(es, p), RemoveAt(order, p), umap - {keyOf(es[p])})
  {
    AgreeDistinct(keyOf, es, order, umap);
    var es', order', umap' := RemoveAt(es, p), RemoveAt(order, p), umap - {keyOf(es[p])};
    forall q | 0 <= q < |es'|
      ensures keyOf(es'[q]) in umap' && umap'[keyOf(es'[q])] == order'[q]
    {
      var i := if q < p then q else q + 1;
      assert es'[q] == es[i] && order'[q] == order[i];
    }
    forall k | k in umap'
      ensures k in EntryKeys(keyOf, es')
    {
      var i :| 0 <= i < |es| && EntryKeys(keyOf, es)[i] == k;
      assert i != p;
      var q := if i < p then i else i - 1;
      assert EntryKeys(keyOf, es')[q] == k;
    }
  }

  /** A new key's entry in front, and its node in the map, keep them
      agreeing. */
  lemma AgreeAfterPush<K, P>(keyOf: P -> K, es: seq<P>, order: seq<nat>, umap: map<K, nat>, v: P, x: nat)
    requires |es| == |order| && Agree(keyOf, es, order, umap) && keyOf(v) !in umap
    ensures Agree(keyOf, [v] + es, [x] + order, umap[keyOf(v) := x])
  {
    var es', order', umap' := [v] + es, [x] + order, umap[keyOf(v) := x];
    forall q | 0 <= q < |es'|
      ensures keyOf(es'[q]) in umap' && umap'[keyOf(es'[q])] == order'[q]
    {
      if q > 0 {
        assert es'[q] == es[q - 1] && order'[q] == order[q - 1];
      }
    }
    forall k | k in umap'
      ensures k in EntryKeys(keyOf, es')
    {
      if k != keyOf(v) {
        var i :| 0 <= i < |es| && EntryKeys(keyOf, es)[i] == k;
        assert EntryKeys(keyOf, es')[i + 1] == k;
      } else {
        assert EntryKeys(keyOf, es')[0] == k;
      }
    }
  }

  /** An entry list after an insertion of a new key: the new entry in
      front, and when that makes the list longer than `capacity`, the last
      (least recently used) entry dropped. */
  function Evict<P>(entries: seq<P>, capacity: int): (r: seq<P>)
    requires |entries| > 0
    ensures |r| <= |entries| && r == entries[..|r|]
    ensures |r| == |entries| <==> |entries| <= capacity
    ensures |entries| > capacity ==> |r| == |entries| - 1
  {
    if |entries| > capacity then entries[..|entries| - 1] else entries
  }

  /** Within capacity (or empty when the capacity is negative): the bound
      every insert restores. */
  predicate WithinCapacity(n: int, capacity: int)
  {
    n == 0 || n <= capacity
  }

  /** One pushed entry with at most one eviction keeps a list within
      capacity. */
  lemma EvictWithinCapacity<P>(entries: seq<P>, capacity: int)
    requires |entries| > 0 && WithinCapacity(|entries| - 1, capacity)
    ensures WithinCapacity(|Evict(entries, capacity)|, capacity)
  {
  }

  class LRUCache<K(==), P(==)> {

    /** SkipListNode::key(), read through a stored pointer. */
    const keyOf: P -> K
    const capacity: int
    var size: int
    var nodes: seq<LruNode<P>>
    var umap: map<K, nat>
    ghost var order: seq<nat>

    /** The list's pointers, most recently used first. */
    ghost function Entries(): (es: seq<P>)
      reads this
      requires Linked(nodes, order)
      ensures |es| == |order|
    {
      Payloads(nodes, order)
    }

    ghost predicate Valid()
      reads this
    {
      Linked(nodes, order) && size == |order| && WithinCapacity(size, capacity)
      && Agree(keyOf, Payloads(nodes, order), order, umap)
    }

    /** The list position of a cached key. */
    ghost function Position(key: K): (p: nat)
      reads this
      requires Valid() && key in umap
      ensures p < |order| && order[p] == umap[key] && keyOf(Entries()[p]) == key
    {
      var p :| 0 <= p < |order| && EntryKeys(keyOf, Payloads(nodes, order))[p] == key;
      p
    }

    /** LRUCache(capacity): empty, head and tail linked to each other. */
    constructor (capacity: int, keyOf: P -> K)
      ensures Valid() && this.capacity == capacity && this.keyOf == keyOf
      ensures Entries() == [] && umap == map[]
    {
      this.keyOf := keyOf;
      this.capacity := capacity;
      size := 0;
      nodes := [LruNode(None, Head, Tail), LruNode(None, Head, Tail)];
      umap := map[];
      order := [];
    }

    /** remove(LruNode* cur): unlink the entry at position p and count one
        less. The map is left to the caller. */
    method RemoveNode(x: nat, ghost p: nat)
      requires Linked(nodes, order) && size == |order| && p < |order| && order[p] == x
      modifies this
      ensures Linked(nodes, order) && size == |order|
      ensures order == RemoveAt(old(order), p) && size == old(size) - 1
      ensures nodes == Unlink(old(nodes), x) && |nodes| == old(|nodes|)
      ensures forall y :: 0 <= y < |nodes| ==> nodes[y].node == old(nodes[y].node)
      ensures Entries() == RemoveAt(old(Entries()), p)
      ensures umap == old(umap)
    {
      ghost var nodes0, order0 := nodes, order;
      UnlinkLinked(nodes, order, p);
      var cur := nodes[x];
      nodes := nodes[cur.prev := nodes[cur.prev].(next := cur.next)];
      nodes := nodes[cur.next := nodes[cur.next].(prev := cur.prev)];
      size := size - 1;
      order := RemoveAt(order, p);
      PayloadsRemoved(nodes0, order0, nodes, p);
    }

    /** push_front(LruNode* cur): link a node that is not on the list in
        after head and count one more. */
    method PushFront(x: nat)
      requires Linked(nodes, order) && size == |order|
      requires 2 <= x < |nodes| && x !in order && nodes[x].node.Some?
      modifies this
      ensures Linked(nodes, order) && size == |order|
      ensures order == [x] + old(order) && size == old(size) + 1
      ensures nodes == LinkFront(old(nodes), x)
      ensures forall y :: 0 <= y < |nodes| ==> nodes[y].node == old(nodes[y].node)
      ensures umap == old(umap)
    {
      LinkFrontLinked(nodes, order, x);
      nodes := nodes[x := nodes[x].(prev := Head)];
      nodes := nodes[x := nodes[x].(next := nodes[Head].next)];
      nodes := nodes[nodes[Head].next := nodes[nodes[Head].next].(prev := x)];
      nodes := nodes[Head := nodes[Head].(next := x)];
      size := size + 1;
      order := [x] + order;
    }

    /** The remove-then-push_front pair that get and insert use to make the
        entry at position p the most recently used. */
    method MoveToFront(x: nat, ghost p: nat)
      requires Linked(nodes, order) && size == |order| && p < |order| && order[p] == x
      modifies this
      ensures Linked(nodes, order) && size == old(size) && size == |order|
      ensures order == [x] + RemoveAt(old(order), p) && umap == old(umap)
      ensures |nodes| == old(|nodes|) && nodes[x].node == old(nodes[x].node)
      ensures Entries() == [nodes[x].node.value] + RemoveAt(old(Entries()), p)
    {
      ghost var nodes0, order0 := nodes, order;
      RemoveNode(x, p);
      PushFront(x);
      PayloadsPromoted(nodes0, order0, nodes, p);
    }

    /** The new-key half of insert before eviction: a fresh list node in
        front and its map entry. */
    method AddFront(key: K, value: P)
      requires Valid() && key !in umap && keyOf(value) == key
      modifies this
      ensures Linked(nodes, order) && size == |order| && size == old(size) + 1
      ensures Agree(keyOf, Payloads(nodes, order), order, umap)
      ensures Entries() == [value] + old(Entries()) && umap.Keys == old(umap.Keys) + {key}
    {
      ghost var nodes0, order0, es0 := nodes, order, Entries();
      var cur := |nodes|;
      nodes := nodes + [LruNode(Some(value), Head, Head)];
      assert Linked(nodes, order);
      PushFront(cur);
      umap := umap[key := cur];
      PayloadsPushed(nodes0, order0, nodes, cur);
      AgreeAfterPush(keyOf, es0, order0, old(umap), value, cur);
    }

    /** The eviction half of insert: drop the entry before tail from the map,
        through its node's key, and from the list. */
    method DropLast()
      requires Linked(nodes, order) && size == |order| && size > 0
      requires Agree(keyOf, Payloads(nodes, order), order, umap)
      modifies this
      ensures Linked(nodes, order) && size == |order| && size == old(size) - 1
      ensures Agree(keyOf, Payloads(nodes, order), order, umap)
      ensures Entries() == old(Entries())[..old(size) - 1]
      ensures umap.Keys == old(umap.Keys) - {keyOf(old(Entries())[old(size) - 1])}
    {
      ghost var order0, es0 := order, Entries();
      LinkAt(nodes, order, |order| - 1);
      var last := nodes[Tail].prev;
      umap := umap - {keyOf(nodes[last].node.value)};
      RemoveNode(last, |order| - 1);
      AgreeAfterRemove(keyOf, es0, order0, old(umap), |order0| - 1);
      assert RemoveAt(es0, |es0| - 1) == es0[..|es0| - 1];
    }

    /** The existing-key half of insert: the node takes the new pointer and
        moves to the front. */
    method Replace(key: K, value: P)
      requires Valid() && key in umap && keyOf(value) == key
      modifies this
      ensures Valid() && umap == old(umap) && size == old(size)
      ensures Entries() == [value] + RemoveAt(old(Entries()), old(Position(key)))
    {
      var x := umap[key];
      ghost var p := Position(key);
      ghost var order0, es0 := order, Entries();
      AgreeAfterPromote(keyOf, es0, order0, umap, p, value);
      assert RemoveAt(es0[p := value], p) == RemoveAt(es0, p);
      SetPayload(nodes, order, p, value);
      nodes := nodes[x := nodes[x].(node := Some(value))];
      assert Entries() == es0[p := value];
      MoveToFront(x, p);
      assert Entries() == [value] + RemoveAt(es0, p);
    }

    /** get: on a hit, move the entry to the front and return its skip-list
        node; on a miss return NULL and change nothing. */
    method Get(key: K) returns (r: Option<P>)
      requires Valid()
      modifies this
      ensures Valid()
      ensures old(key !in umap) ==> r == None && unchanged(this)
      ensures old(key in umap) ==>
        r == Some(old(Entries()[Position(key)])) && keyOf(r.value) == key
        && Entries() == [r.value] + RemoveAt(old(Entries()), old(Position(key)))
        && umap == old(umap) && size == old(size)
    {
      if key in umap {
        var x := umap[key];
        ghost var p := Position(key);
        ghost var order0, es0 := order, Entries();
        MoveToFront(x, p);
        r := nodes[x].node;
        AgreeAfterPromote(keyOf, es0, order0, umap, p, r.value);
      } else {
        r := None;
      }
    }

    /** insert: an existing key gets the new pointer and moves to the front;
        a new key gets a fresh list node in front and a map entry, and when
        that makes the cache exceed its capacity the entry before tail is
        dropped from the map (through its node's key) and from the list. */
    method Insert(key: K, value: P)
      requires Valid() && keyOf(value) == key
      modifies this
      ensures Valid()
      ensures old(key in umap) ==>
        Entries() == [value] + RemoveAt(old(Entries()), old(Position(key)))
        && umap.Keys == old(umap.Keys) && size == old(size)
      ensures old(key !in umap) ==>
        Entries() == Evict([value] + old(Entries()), capacity)
    {
      if key in umap {
        Replace(key, value);
        return;
      }
      ghost var es0 := Entries();
      AddFront(key, value);
      if size > capacity {
        DropLast();
      }
      EvictWithinCapacity([value] + es0, capacity);
    }

    /** remove(K key): for a cached key, unlink its entry and erase it from
        the map; otherwise change nothing. */
    method Remove(key: K)
      requires Valid()
      modifies this
      ensures Valid()
      ensures old(key !in umap) ==> unchanged(this)
      ensures old(key in umap) ==>
        Entries() == RemoveAt(old(Entries()), old(Position(key)))
        && umap.Keys == old(umap.Keys) - {key} && size == old(size) - 1
    {
      if key in umap {
        ghost var p := Position(key);
        ghost var order0, es0 := order, Entries();
        RemoveNode(umap[key], p);
        umap := umap - {key};
        AgreeAfterRemove(keyOf, es0, order0, old(umap), p);
      }
    }
  }
}
