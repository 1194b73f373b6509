/**
 * The node arena of the skip list in skiplist.h, and what one level of it
 * looks like. A `SkipListNode*` is an index into the arena `nodes`; node 0
 * is the list's `header_`, whose key and value are never looked at. Every
 * node has `level + 1` next links (its `next_` array), one per level it is
 * on, NULL or pointing to another node.
 *
 * Level i of the list is described by its chain: the sequence of node ids
 * that following `next_[i]` from the header visits. Positions in a chain run
 * from -1, the header, to |chain| - 1. The lemmas here say how the two
 * rewirings of skiplist.h, splicing a node in after a position and
 * unlinking the node after a position, change one chain and leave every
 * other level alone.
 */
module SkipListLevels {

  import opened KeyOrder

  datatype Link = Null | Ptr(id: nat)

  datatype Node<V> = Node(key: Key, val: V, level: nat, next: seq<Link>)

  /** SkipListNode(key, val, level): `level + 1` next links, all NULL. */
  function NewNode<V>(key: Key, val: V, level: nat): (n: Node<V>)
    ensures n.key == key && n.val == val && n.level == level
    ensures |n.next| == level + 1 && forall i :: 0 <= i <= level ==> n.next[i] == Null
  {
    Node(key, val, level, seq(level + 1, _ => Null))
  }

  /** The node at position p of chain c: the header for p == -1. */
  function Id(c: seq<nat>, p: int): nat
    requires -1 <= p < |c|
  {
    if p == -1 then 0 else c[p]
  }

  /** Where the node at position p links to: the next node of the chain, or
      NULL after the last one. */
  function Succ(c: seq<nat>, p: int): Link
    requires -1 <= p < |c|
  {
    if p + 1 < |c| then Ptr(c[p + 1]) else Null
  }

  /** Node x exists and has a link on level i. */
  predicate HasLevel<V>(nodes: seq<Node<V>>, x: nat, i: nat)
  {
    x < |nodes| && i < |nodes[x].next|
  }

  /** Level i of the arena is chain c: c holds nodes other than the header
      that are on level i, and following next[i] from the header visits c's
      nodes in order and then reaches NULL. */
  predicate Linked<V>(nodes: seq<Node<V>>, i: nat, c: seq<nat>)
  {
    HasLevel(nodes, 0, i)
    && (forall p :: 0 <= p < |c| ==> 0 < c[p] && HasLevel(nodes, c[p], i))
    && (forall p :: -1 <= p < |c| ==> nodes[Id(c, p)].next[i] == Succ(c, p))
  }

  /** The header's link on a level is NULL exactly when the level is empty. */
  lemma HeaderLink<V>(nodes: seq<Node<V>>, i: nat, c: seq<nat>)
    requires Linked(nodes, i, c)
    ensures HasLevel(nodes, 0, i)
    ensures nodes[0].next[i] == Null <==> c == []
  {
    assert Id(c, -1) == 0;
  }

  /** The keys along a chain (the empty key for an id outside the arena,
      which no chain of the list holds). */
  function KeysOf<V>(nodes: seq<Node<V>>, c: seq<nat>): (ks: seq<Key>)
    ensures |ks| == |c| && forall p :: 0 <= p < |c| && c[p] < |nodes| ==> ks[p] == nodes[c[p]].key
  {
    seq(|c|, p requires 0 <= p < |c| => if c[p] < |nodes| then nodes[c[p]].key else [])
  }

  /** A level as the skip list keeps it: linked, and strictly increasing by key. */
  predicate LevelOk<V>(nodes: seq<Node<V>>, i: nat, c: seq<nat>)
  {
    Linked(nodes, i, c) && Sorted(KeysOf(nodes, c))
  }

  /** `x->next_[i] = l`. */
  function SetNext<V>(nodes: seq<Node<V>>, x: nat, i: nat, l: Link): (r: seq<Node<V>>)
    requires HasLevel(nodes, x, i)
    ensures |r| == |nodes|
  {
    nodes[x := nodes[x].(next := nodes[x].next[i := l])]
  }

  /** What `x->next_[i] = l` does to node y: its key, value and level stay,
      and only its link on level i changes, and only when y is x. */
  lemma SetNextAt<V>(nodes: seq<Node<V>>, x: nat, i: nat, l: Link, y: nat)
    requires HasLevel(nodes, x, i) && y < |nodes|
    ensures SetNext(nodes, x, i, l)[y].key == nodes[y].key
    ensures SetNext(nodes, x, i, l)[y].val == nodes[y].val
    ensures SetNext(nodes, x, i, l)[y].level == nodes[y].level
    ensures |SetNext(nodes, x, i, l)[y].next| == |nodes[y].next|
    ensures forall j :: 0 <= j < |nodes[y].next| ==>
      SetNext(nodes, x, i, l)[y].next[j] == if y == x && j == i then l else nodes[y].next[j]
  {
  }

  /** What a node holds besides where its links point: key, value, level
      and the number of links. */
  datatype Entry<V> = Entry(key: Key, val: V, level: nat, width: nat)

  /** The entries of an arena, node by node. */
  ghost function Entries<V>(nodes: seq<Node<V>>): (es: seq<Entry<V>>)
    ensures |es| == |nodes|
  {
    seq(|nodes|, y requires 0 <= y < |nodes| => Entry(nodes[y].key, nodes[y].val, nodes[y].level, |nodes[y].next|))
  }

  /** The two arenas hold the same entries: only links may differ. */
  ghost predicate SameEntries<V>(nodes: seq<Node<V>>, nodes': seq<Node<V>>)
  {
    Entries(nodes) == Entries(nodes')
  }

  /** Node by node, what two arenas with the same entries agree on. */
  lemma SameEntriesAt<V>(nodes: seq<Node<V>>, nodes': seq<Node<V>>)
    requires SameEntries(nodes, nodes')
    ensures |nodes'| == |nodes|
    ensures forall y :: 0 <= y < |nodes| ==>
      nodes'[y].key == nodes[y].key && nodes'[y].val == nodes[y].val
      && nodes'[y].level == nodes[y].level && |nodes'[y].next| == |nodes[y].next|
  {
    forall y | 0 <= y < |nodes|
      ensures nodes'[y].key == nodes[y].key && nodes'[y].val == nodes[y].val
      ensures nodes'[y].level == nodes[y].level && |nodes'[y].next| == |nodes[y].next|
    {
      SameEntryAt(nodes, nodes', y);
    }
  }

  /** What two arenas with the same entries agree on at node y. */
  lemma SameEntryAt<V>(nodes: seq<Node<V>>, nodes': seq<Node<V>>, y: nat)
    requires SameEntries(nodes, nodes') && y < |nodes|
    ensures |nodes'| == |nodes|
    ensures nodes'[y].key == nodes[y].key && nodes'[y].val == nodes[y].val
    ensures nodes'[y].level == nodes[y].level && |nodes'[y].next| == |nodes[y].next|
  {
    assert Entries(nodes)[y] == Entries(nodes')[y];
  }

  /** Rewiring a link changes no entry. */
  lemma SetNextSameEntries<V>(nodes: seq<Node<V>>, x: nat, i: nat, l: Link)
    requires HasLevel(nodes, x, i)
    ensures SameEntries(nodes, SetNext(nodes, x, i, l))
  {
    var a, b := Entries(nodes), Entries(SetNext(nodes, x, i, l));
    forall y | 0 <= y < |nodes|
      ensures a[y] == b[y]
    {
      SetNextAt(nodes, x, i, l, y);
    }
    assert a == b;
  }

  /** The nodes of a chain after a splice: the old ones and the new one. */
  lemma InsertAtMembers<T>(c: seq<T>, p: nat, n: T, y: T)
    requires p <= |c|
    ensures y in InsertAt(c, p, n) <==> y in c || y == n
  {
    var r := InsertAt(c, p, n);
    if y in c {
      var a :| 0 <= a < |c| && c[a] == y;
      if a < p {
        assert r[a] == y;
      } else {
        assert r[a + 1] == y;
      }
    }
    if y in r {
      var a :| 0 <= a < |r| && r[a] == y;
      if a < p {
        assert c[a] == y;
      } else if a > p {
        assert c[a - 1] == y;
      }
    }
  }

  /** The nodes of a chain without duplicates after an unlink: all but the
      one unlinked. */
  lemma RemoveAtMembers<T>(c: seq<T>, q: nat, y: T)
    requires q < |c| && Distinct(c)
    ensures y in RemoveAt(c, q) <==> y in c && y != c[q]
  {
    var r := RemoveAt(c, q);
    if y in c && y != c[q] {
      var a :| 0 <= a < |c| && c[a] == y;
      if a < q {
        assert r[a] == y;
      } else {
        assert r[a - 1] == y;
      }
    }
    if y in r {
      var a :| 0 <= a < |r| && r[a] == y;
      if a < q {
        assert c[a] == y;
      } else {
        assert c[a + 1] == y;
      }
    }
  }

  /** In a sorted chain no node appears twice. */
  lemma SortedDistinct<V>(nodes: seq<Node<V>>, c: seq<nat>)
    requires forall p :: 0 <= p < |c| ==> c[p] < |nodes|
    requires Sorted(KeysOf(nodes, c))
    ensures Distinct(c)
  {
    forall a, b | 0 <= a < b < |c|
      ensures c[a] != c[b]
    {
      var ks := KeysOf(nodes, c);
      assert Less(ks[a], ks[b]);
      LessIrreflexive(ks[a]);
    }
  }

  /** Rewiring a link on another level leaves level i linked as it was. */
  lemma SetNextElsewhere<V>(nodes: seq<Node<V>>, x: nat, j: nat, l: Link, i: nat, c: seq<nat>)
    requires HasLevel(nodes, x, j) && j != i
    requires Linked(nodes, i, c)
    ensures Linked(SetNext(nodes, x, j, l), i, c)
  {
    var r := SetNext(nodes, x, j, l);
    forall y | 0 <= y < |nodes|
      ensures |r[y].next| == |nodes[y].next|
      ensures i < |nodes[y].next| ==> r[y].next[i] == nodes[y].next[i]
    {
      SetNextAt(nodes, x, j, l, y);
    }
  }

  /** Two arenas whose nodes carry the same keys give every chain the same keys. */
  lemma SameKeys<V>(nodes: seq<Node<V>>, nodes': seq<Node<V>>, c: seq<nat>)
    requires |nodes| == |nodes'| && forall y :: 0 <= y < |nodes| ==> nodes[y].key == nodes'[y].key
    requires forall p :: 0 <= p < |c| ==> c[p] < |nodes|
    ensures KeysOf(nodes, c) == KeysOf(nodes', c)
  {
  }

  /** Allocating a node keeps the keys of every chain of older nodes. */
  lemma AppendKeys<V>(nodes: seq<Node<V>>, n: Node<V>, c: seq<nat>)
    requires forall p :: 0 <= p < |c| ==> c[p] < |nodes|
    ensures KeysOf(nodes + [n], c) == KeysOf(nodes, c)
  {
  }

  /** Allocating a node changes no level. */
  lemma AppendElsewhere<V>(nodes: seq<Node<V>>, n: Node<V>, i: nat, c: seq<nat>)
    requires Linked(nodes, i, c)
    ensures Linked(nodes + [n], i, c)
  {
    var r := nodes + [n];
    assert forall p :: -1 <= p < |c| ==> r[Id(c, p)] == nodes[Id(c, p)];
  }

  /** The two link writes of a splice on level i change no entry and leave
      every other level linked as it was. */
  lemma SpliceElsewhere<V>(nodes: seq<Node<V>>, i: nat, c: seq<nat>, p: int, n: nat, chains: seq<seq<nat>>)
    requires Linked(nodes, i, c) && -1 <= p < |c| && HasLevel(nodes, n, i)
    requires forall j :: 0 <= j < |chains| ==> Linked(nodes, j, chains[j])
    ensures HasLevel(SetNext(nodes, n, i, nodes[Id(c, p)].next[i]), Id(c, p), i)
    ensures SameEntries(nodes, SetNext(SetNext(nodes, n, i, nodes[Id(c, p)].next[i]), Id(c, p), i, Ptr(n)))
    ensures forall j :: 0 <= j < |chains| && j != i ==>
      Linked(SetNext(SetNext(nodes, n, i, nodes[Id(c, p)].next[i]), Id(c, p), i, Ptr(n)), j, chains[j])
  {
    var last := Id(c, p);
    var l := nodes[last].next[i];
    SetNextAt(nodes, n, i, l, last);
    var mid := SetNext(nodes, n, i, l);
    SetNextSameEntries(nodes, n, i, l);
    SetNextSameEntries(mid, last, i, Ptr(n));
    forall j | 0 <= j < |chains| && j != i
      ensures Linked(SetNext(mid, last, i, Ptr(n)), j, chains[j])
    {
      SetNextElsewhere(nodes, n, i, l, j, chains[j]);
      SetNextElsewhere(mid, last, i, Ptr(n), j, chains[j]);
    }
  }

  /** The splice of insert at level i: `new_node->next_[i] = last_less[i]->next_[i];
      last_less[i]->next_[i] = new_node;` with last_less[i] at position p
      puts the new node right after position p. */
  lemma Splice<V>(nodes: seq<Node<V>>, i: nat, c: seq<nat>, p: int, n: nat)
    requires Linked(nodes, i, c) && -1 <= p < |c|
    requires Distinct(c)
    requires 0 < n && HasLevel(nodes, n, i) && n !in c
    ensures HasLevel(SetNext(nodes, n, i, nodes[Id(c, p)].next[i]), Id(c, p), i)
    ensures Linked(SetNext(SetNext(nodes, n, i, nodes[Id(c, p)].next[i]), Id(c, p), i, Ptr(n)), i, InsertAt(c, p + 1, n))
  {
    var r1 := SetNext(nodes, n, i, nodes[Id(c, p)].next[i]);
    SetNextAt(nodes, n, i, nodes[Id(c, p)].next[i], Id(c, p));
    var r := SetNext(r1, Id(c, p), i, Ptr(n));
    var c' := InsertAt(c, p + 1, n);
    forall q | 0 <= q < |c'|
      ensures 0 < c'[q] && HasLevel(r, c'[q], i)
    {
      SetNextAt(nodes, n, i, nodes[Id(c, p)].next[i], c'[q]);
      SetNextAt(r1, Id(c, p), i, Ptr(n), c'[q]);
    }
    forall q | -1 <= q < |c'|
      ensures r[Id(c', q)].next[i] == Succ(c', q)
    {
      var z := Id(c', q);
      SetNextAt(nodes, n, i, nodes[Id(c, p)].next[i], z);
      SetNextAt(r1, Id(c, p), i, Ptr(n), z);
      if q < p {
        assert z == Id(c, q) && Succ(c', q) == Succ(c, q);
        assert z != Id(c, p) && z != n;
      } else if q == p {
        assert z == Id(c, p);
      } else if q == p + 1 {
        assert z == n && Succ(c', q) == Succ(c, p);
      } else {
        assert z == Id(c, q - 1) && Succ(c', q) == Succ(c, q - 1);
        assert z != Id(c, p) && z != n;
      }
    }
    SetNextAt(nodes, n, i, nodes[Id(c, p)].next[i], 0);
    SetNextAt(r1, Id(c, p), i, Ptr(n), 0);
  }

  /** The unlink of erase at level i: `last_less[i]->next_[i] = cur->next_[i];`
      with cur at position q drops it from the chain. */
  lemma Unlink<V>(nodes: seq<Node<V>>, i: nat, c: seq<nat>, q: nat)
    requires Linked(nodes, i, c) && q < |c|
    requires Distinct(c)
    ensures HasLevel(nodes, Id(c, q - 1), i)
    ensures Linked(SetNext(nodes, Id(c, q - 1), i, nodes[c[q]].next[i]), i, RemoveAt(c, q))
  {
    var r := SetNext(nodes, Id(c, q - 1), i, nodes[c[q]].next[i]);
    var c' := RemoveAt(c, q);
    forall p | 0 <= p < |c'|
      ensures 0 < c'[p] && HasLevel(r, c'[p], i)
    {
      SetNextAt(nodes, Id(c, q - 1), i, nodes[c[q]].next[i], c'[p]);
    }
    forall p | -1 <= p < |c'|
      ensures r[Id(c', p)].next[i] == Succ(c', p)
    {
      var z := Id(c', p);
      SetNextAt(nodes, Id(c, q - 1), i, nodes[c[q]].next[i], z);
      if p < q - 1 {
        assert z == Id(c, p) && Succ(c', p) == Succ(c, p);
      } else if p == q - 1 {
        assert z == Id(c, q - 1) && Succ(c', p) == Succ(c, q);
      } else {
        assert z == Id(c, p + 1) && Succ(c', p) == Succ(c, p + 1);
      }
    }
    SetNextAt(nodes, Id(c, q - 1), i, nodes[c[q]].next[i], 0);
  }

  /** The keys after a splice or unlink are the keys spliced or unlinked. */
  lemma KeysOfInsertAt<V>(nodes: seq<Node<V>>, c: seq<nat>, p: nat, n: nat)
    requires forall q :: 0 <= q < |c| ==> c[q] < |nodes|
    requires p <= |c| && n < |nodes|
    ensures KeysOf(nodes, InsertAt(c, p, n)) == InsertAt(KeysOf(nodes, c), p, nodes[n].key)
  {
  }

  lemma KeysOfRemoveAt<V>(nodes: seq<Node<V>>, c: seq<nat>, q: nat)
    requires forall p :: 0 <= p < |c| ==> c[p] < |nodes|
    requires q < |c|
    ensures KeysOf(nodes, RemoveAt(c, q)) == RemoveAt(KeysOf(nodes, c), q)
  {
  }

  /** Chain c with node x left out wherever it occurs. */
  function RemoveId(c: seq<nat>, x: nat): (r: seq<nat>)
    ensures forall y :: y in r <==> y in c && y != x
  {
    if |c| == 0 then [] else (if c[0] == x then [] else [c[0]]) + RemoveId(c[1..], x)
  }

  lemma {:induction false} RemoveIdAbsent(c: seq<nat>, x: nat)
    requires x !in c
    ensures RemoveId(c, x) == c
  {
    if |c| > 0 {
      RemoveIdAbsent(c[1..], x);
      assert c == [c[0]] + c[1..];
    }
  }

  /** Unlinking the one occurrence of x at position q is leaving x out. */
  lemma {:induction false} RemoveAtIsRemoveId(c: seq<nat>, q: nat, x: nat)
    requires Distinct(c) && q < |c| && c[q] == x
    ensures RemoveAt(c, q) == RemoveId(c, x)
  {
    if q == 0 {
      assert x !in c[1..];
      RemoveIdAbsent(c[1..], x);
      assert RemoveAt(c, q) == c[1..];
    } else {
      assert Distinct(c[1..]);
      RemoveAtIsRemoveId(c[1..], q - 1, x);
      assert RemoveAt(c, q) == [c[0]] + RemoveAt(c[1..], q - 1);
    }
  }
}
