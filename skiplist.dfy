/**
 * The SkipList of skiplist.h: an ordered map from keys to values kept as a
 * stack of sorted linked levels over a node arena (see SkipListLevels).
 *
 * The list's own fields are `nodes` (the arena, node 0 being `header_`),
 * `level` (`skip_list_level_`), `size` (`size_`) and `maxLevel`
 * (`max_level_`). The ghost field `chains` records, per level, the nodes
 * that following `next_[i]` from the header visits; `Valid` says the links
 * really do spell out those chains, that every level is sorted, that a node
 * is on exactly the levels 0 .. its own level, and that `skip_list_level_`
 * is the highest non-empty level. `Keys` is level 0's key sequence, the
 * contents of the list in order.
 *
 * `random()` is replaced by the sequence of outcomes `random() % 2 == 1` of
 * its successive calls, passed in as `flips`.
 */
module SkipLists {

  import opened KeyOrder
  import opened SkipListLevels

  function Max(a: nat, b: nat): nat
  {
    if a < b then b else a
  }

  // get_random_level

  /** The number of successive heads from flip `from` on, stopping at `cap`. */
  function LeadingHeads(flips: nat -> bool, from: nat, cap: nat): (r: nat)
    requires from <= cap
    ensures from <= r <= cap
    ensures forall j :: from <= j < r ==> flips(j)
    ensures r == cap || !flips(r)
    decreases cap - from
  {
    if from == cap || !flips(from) then from else LeadingHeads(flips, from + 1, cap)
  }

  /** The level get_random_level draws: one more for every head before the
      first tail, but never more than the cap. */
  function RandomLevel(flips: nat -> bool, cap: nat): (r: nat)
    ensures r <= cap
    ensures forall j :: 0 <= j < r ==> flips(j)
    ensures r == cap || !flips(r)
  {
    LeadingHeads(flips, 0, cap)
  }

  // The invariant

  /** The header is on every level and every node has `level + 1` links. */
  ghost predicate Shape<V>(nodes: seq<Node<V>>, maxLevel: nat)
  {
    |nodes| > 0 && nodes[0].level == maxLevel
    && forall y :: 0 <= y < |nodes| ==> |nodes[y].next| == nodes[y].level + 1
  }

  /** Every chain holds nodes of the arena other than the header. */
  ghost predicate Bounded(chains: seq<seq<nat>>, n: nat)
  {
    forall i, p :: 0 <= i < |chains| && 0 <= p < |chains[i]| ==> 0 < chains[i][p] < n
  }

  /** Levels 0 .. maxLevel are sorted chains. */
  ghost predicate Levels<V>(nodes: seq<Node<V>>, maxLevel: nat, chains: seq<seq<nat>>)
  {
    |chains| == maxLevel + 1 && Bounded(chains, |nodes|)
    && forall i {:trigger LevelOk(nodes, i, chains[i])} :: 0 <= i <= maxLevel ==> LevelOk(nodes, i, chains[i])
  }

  /** The list's level is the highest non-empty one, or 0. */
  ghost predicate Top(maxLevel: nat, level: nat, chains: seq<seq<nat>>)
    requires |chains| == maxLevel + 1
  {
    level <= maxLevel
    && (forall i :: level < i <= maxLevel ==> chains[i] == [])
    && (level == 0 || chains[level] != [])
  }

  /** A node is on exactly the levels 0 .. its own level, and no node is
      above the list's level. */
  ghost predicate Towers<V>(nodes: seq<Node<V>>, maxLevel: nat, level: nat, chains: seq<seq<nat>>)
    requires |chains| == maxLevel + 1
  {
    (forall i, y {:trigger y in chains[i]} :: 0 <= i <= maxLevel && 0 < y < |nodes| ==>
       (y in chains[i] <==> y in chains[0] && i <= nodes[y].level))
    && (forall y :: 0 < y < |nodes| && y in chains[0] ==> nodes[y].level <= level)
  }

  /** The shape of the list between operations. */
  ghost predicate Inv<V>(nodes: seq<Node<V>>, maxLevel: nat, level: nat, chains: seq<seq<nat>>)
  {
    Shape(nodes, maxLevel) && Levels(nodes, maxLevel, chains)
    && Top(maxLevel, level, chains) && Towers(nodes, maxLevel, level, chains)
  }

  /** Sorted keys never repeat. */
  lemma SortedKeysDistinct(ks: seq<Key>)
    requires Sorted(ks)
    ensures Distinct(ks)
  {
    forall a, b | 0 <= a < b < |ks|
      ensures ks[a] != ks[b]
    {
      LessIrreflexive(ks[a]);
    }
  }

  /** After the last node less than key, a sorted level holds key exactly
      when the level does at all. */
  lemma NextAtRank<V>(nodes: seq<Node<V>>, i: nat, c: seq<nat>, key: Key, p: int)
    requires LevelOk(nodes, i, c) && -1 <= p < |c|
    requires p + 1 == Rank(KeysOf(nodes, c), key)
    ensures (Succ(c, p).Ptr? && nodes[Succ(c, p).id].key == key) <==> key in KeysOf(nodes, c)
  {
    MemberAtRank(KeysOf(nodes, c), key);
  }

  /** A key missing from level 0 is on no level. */
  lemma AbsentEverywhere<V>(nodes: seq<Node<V>>, maxLevel: nat, level: nat, chains: seq<seq<nat>>, key: Key)
    requires Levels(nodes, maxLevel, chains) && Towers(nodes, maxLevel, level, chains)
    requires key !in KeysOf(nodes, chains[0])
    ensures forall i :: 0 <= i <= maxLevel ==> key !in KeysOf(nodes, chains[i])
  {
    forall i | 0 <= i <= maxLevel
      ensures key !in KeysOf(nodes, chains[i])
    {
      assert LevelOk(nodes, i, chains[i]) && LevelOk(nodes, 0, chains[0]);
      forall p | 0 <= p < |chains[i]|
        ensures KeysOf(nodes, chains[i])[p] != key
      {
        var y := chains[i][p];
        assert y in chains[i];
        var p0 :| 0 <= p0 < |chains[0]| && chains[0][p0] == y;
        assert KeysOf(nodes, chains[0])[p0] == nodes[y].key;
      }
    }
  }

  /** Every level's keys are a subsequence of level 0's. */
  lemma LevelsNest<V>(nodes: seq<Node<V>>, maxLevel: nat, level: nat, chains: seq<seq<nat>>, i: nat)
    requires Inv(nodes, maxLevel, level, chains) && i <= maxLevel
    ensures IsSubsequence(KeysOf(nodes, chains[i]), KeysOf(nodes, chains[0]))
  {
    assert LevelOk(nodes, i, chains[i]) && LevelOk(nodes, 0, chains[0]);
    var a, b := KeysOf(nodes, chains[i]), KeysOf(nodes, chains[0]);
    forall k | k in a
      ensures k in b
    {
      var p :| 0 <= p < |a| && a[p] == k;
      var y := chains[i][p];
      assert y in chains[i];
      var p0 :| 0 <= p0 < |chains[0]| && chains[0][p0] == y;
      assert b[p0] == k;
    }
    SortedSubsetIsSubsequence(a, b);
  }

  /** The node erase finds holds the key on each of its levels, right after
      the position the traversal stopped at. */
  lemma UnlinkPositions<V>(nodes: seq<Node<V>>, maxLevel: nat, level: nat, chains: seq<seq<nat>>,
                           key: Key, ps: seq<int>, x: nat)
    requires Inv(nodes, maxLevel, level, chains)
    requires 0 < x < |nodes| && x in chains[0] && nodes[x].key == key
    requires |ps| == maxLevel + 1
    requires forall i :: 0 <= i <= maxLevel ==>
      -1 <= ps[i] < |chains[i]| && ps[i] + 1 == Rank(KeysOf(nodes, chains[i]), key)
    ensures nodes[x].level <= level
    ensures forall i :: 0 <= i <= nodes[x].level ==> ps[i] + 1 < |chains[i]| && chains[i][ps[i] + 1] == x
  {
    forall i | 0 <= i <= nodes[x].level
      ensures ps[i] + 1 < |chains[i]| && chains[i][ps[i] + 1] == x
    {
      var c := chains[i];
      assert LevelOk(nodes, i, c);
      assert x in c;
      var a :| 0 <= a < |c| && c[a] == x;
      var ks := KeysOf(nodes, c);
      assert ks[a] == key;
      MemberAtRank(ks, key);
      LessIrreflexive(key);
      RankSplit(ks, key, a);
      SortedKeysDistinct(ks);
      assert a == ps[i] + 1;
    }
  }

  // One level at a time

  /** A level insert does not touch keeps its keys. */
  lemma KeysKeptAt<V>(nodes: seq<Node<V>>, c: seq<nat>, node: Node<V>, nodes': seq<Node<V>>)
    requires forall p :: 0 <= p < |c| ==> c[p] < |nodes|
    requires SameEntries(nodes + [node], nodes')
    ensures KeysOf(nodes', c) == KeysOf(nodes, c)
  {
    SameEntriesAt(nodes + [node], nodes');
    AppendKeys(nodes, node, c);
    SameKeys(nodes + [node], nodes', c);
  }

  /** A level insert splices the new node into at the key's rank stays
      sorted and gains the key there. */
  lemma InsertSortedAt<V>(nodes: seq<Node<V>>, c: seq<nat>, key: Key, val: V, rl: nat,
                          nodes': seq<Node<V>>, q: nat)
    requires forall p :: 0 <= p < |c| ==> c[p] < |nodes|
    requires Sorted(KeysOf(nodes, c)) && key !in KeysOf(nodes, c) && q == Rank(KeysOf(nodes, c), key)
    requires SameEntries(nodes + [NewNode(key, val, rl)], nodes')
    ensures KeysOf(nodes', InsertAt(c, q, |nodes|)) == InsertAt(KeysOf(nodes, c), q, key)
    ensures Sorted(KeysOf(nodes', InsertAt(c, q, |nodes|)))
  {
    SameEntriesAt(nodes + [NewNode(key, val, rl)], nodes');
    var base := nodes + [NewNode(key, val, rl)];
    SameKeys(base, nodes', InsertAt(c, q, |nodes|));
    KeysOfInsertAt(base, c, q, |nodes|);
    AppendKeys(nodes, NewNode(key, val, rl), c);
    InsertAtRankSorted(KeysOf(nodes, c), key);
  }

  /** A level erase unlinks node x from stays sorted and loses x's key. */
  lemma EraseSortedAt<V>(nodes: seq<Node<V>>, c: seq<nat>, q: nat, x: nat, nodes': seq<Node<V>>)
    requires forall p :: 0 <= p < |c| ==> c[p] < |nodes|
    requires Sorted(KeysOf(nodes, c)) && q < |c| && c[q] == x
    requires SameEntries(nodes, nodes')
    ensures RemoveAt(c, q) == RemoveId(c, x)
    ensures KeysOf(nodes', RemoveAt(c, q)) == RemoveAt(KeysOf(nodes, c), q)
    ensures Sorted(KeysOf(nodes', RemoveAt(c, q)))
  {
    SameEntriesAt(nodes, nodes');
    SortedDistinct(nodes, c);
    RemoveAtIsRemoveId(c, q, x);
    SameKeys(nodes, nodes', RemoveAt(c, q));
    KeysOfRemoveAt(nodes, c, q);
    RemoveAtSorted(KeysOf(nodes, c), q);
  }

  // The rewiring loops

  /** Where the splice loop of insert stands before level i: levels below i
      (up to rl) have node n spliced in after position ps[j], the others are
      as they were, and no entry has changed. */
  ghost predicate Spliced<V>(nodes0: seq<Node<V>>, chains0: seq<seq<nat>>, n: nat, ps: seq<int>, rl: nat,
                             nodes: seq<Node<V>>, chains: seq<seq<nat>>, i: nat)
    requires |chains0| == |ps| && rl < |ps|
    requires forall j :: 0 <= j <= rl ==> -1 <= ps[j] < |chains0[j]|
  {
    SameEntries(nodes0, nodes) && |chains| == |chains0|
    && (forall j {:trigger chains[j]} :: 0 <= j < |chains| ==>
          chains[j] == (if j < i && j <= rl then InsertAt(chains0[j], ps[j] + 1, n) else chains0[j]))
    && (forall j {:trigger Linked(nodes, j, chains[j])} :: 0 <= j < |chains| ==> Linked(nodes, j, chains[j]))
  }

  /** One turn of the splice loop. */
  lemma SpliceStep<V>(nodes0: seq<Node<V>>, chains0: seq<seq<nat>>, n: nat, ps: seq<int>, rl: nat,
                      nodes: seq<Node<V>>, chains: seq<seq<nat>>, i: nat)
    requires |chains0| == |ps| && rl < |ps|
    requires forall j :: 0 <= j <= rl ==> -1 <= ps[j] < |chains0[j]|
    requires Spliced(nodes0, chains0, n, ps, rl, nodes, chains, i) && i <= rl
    requires 0 < n < |nodes0| && rl < |nodes0[n].next|
    requires Distinct(chains0[i]) && n !in chains0[i]
    ensures HasLevel(nodes, n, i) && HasLevel(nodes, Id(chains0[i], ps[i]), i)
    ensures HasLevel(SetNext(nodes, n, i, nodes[Id(chains0[i], ps[i])].next[i]), Id(chains0[i], ps[i]), i)
    ensures Spliced(nodes0, chains0, n, ps, rl,
                    SetNext(SetNext(nodes, n, i, nodes[Id(chains0[i], ps[i])].next[i]), Id(chains0[i], ps[i]), i, Ptr(n)),
                    chains[i := InsertAt(chains[i], ps[i] + 1, n)], i + 1)
  {
    var c := chains0[i];
    assert chains[i] == c;
    SameEntryAt(nodes0, nodes, n);
    Splice(nodes, i, c, ps[i], n);
    SpliceElsewhere(nodes, i, c, ps[i], n, chains);
  }

  /** What the finished splice loop leaves: node n after ps[i] on levels
      0 .. rl, the other levels as they were, every level linked and no
      entry changed. */
  ghost predicate SpliceDone<V>(nodes0: seq<Node<V>>, chains0: seq<seq<nat>>, n: nat, ps: seq<int>, rl: nat,
                                nodes: seq<Node<V>>, chains: seq<seq<nat>>)
    requires |chains0| == |ps| && rl < |ps|
    requires forall j :: 0 <= j <= rl ==> -1 <= ps[j] < |chains0[j]|
  {
    SameEntries(nodes0, nodes) && |chains| == |chains0|
    && (forall j {:trigger chains[j]} :: 0 <= j <= rl ==> chains[j] == InsertAt(chains0[j], ps[j] + 1, n))
    && (forall j {:trigger chains[j]} :: rl < j < |chains| ==> chains[j] == chains0[j])
    && (forall j :: 0 <= j < |chains| ==> Linked(nodes, j, chains[j]))
  }

  lemma SplicedAll<V>(nodes0: seq<Node<V>>, chains0: seq<seq<nat>>, n: nat, ps: seq<int>, rl: nat,
                      nodes: seq<Node<V>>, chains: seq<seq<nat>>)
    requires |chains0| == |ps| && rl < |ps|
    requires forall j :: 0 <= j <= rl ==> -1 <= ps[j] < |chains0[j]|
    requires Spliced(nodes0, chains0, n, ps, rl, nodes, chains, rl + 1)
    ensures SpliceDone(nodes0, chains0, n, ps, rl, nodes, chains)
  {
    forall j | 0 <= j < |chains|
      ensures Linked(nodes, j, chains[j])
    {
      assert Linked(nodes, j, chains[j]);
    }
  }

  /** Where the unlink loop of erase stands before level i: levels below i
      (up to top) have lost the node after position ps[j], the others are as
      they were, and no entry has changed. */
  ghost predicate Unlinked<V>(nodes0: seq<Node<V>>, chains0: seq<seq<nat>>, ps: seq<int>, top: nat,
                              nodes: seq<Node<V>>, chains: seq<seq<nat>>, i: nat)
    requires |chains0| == |ps| && top < |ps|
    requires forall j :: 0 <= j <= top ==> -1 <= ps[j] && ps[j] + 1 < |chains0[j]|
  {
    SameEntries(nodes0, nodes) && |chains| == |chains0|
    && (forall j {:trigger chains[j]} :: 0 <= j < |chains| ==>
          chains[j] == (if j < i && j <= top then RemoveAt(chains0[j], ps[j] + 1) else chains0[j]))
    && (forall j {:trigger Linked(nodes, j, chains[j])} :: 0 <= j < |chains| ==> Linked(nodes, j, chains[j]))
  }

  /** One turn of the unlink loop: node x, at position ps[i] + 1, is skipped. */
  lemma UnlinkStep<V>(nodes0: seq<Node<V>>, chains0: seq<seq<nat>>, ps: seq<int>, top: nat,
                      nodes: seq<Node<V>>, chains: seq<seq<nat>>, i: nat, x: nat)
    requires |chains0| == |ps| && top < |ps|
    requires forall j :: 0 <= j <= top ==> -1 <= ps[j] && ps[j] + 1 < |chains0[j]|
    requires Unlinked(nodes0, chains0, ps, top, nodes, chains, i) && i <= top
    requires chains0[i][ps[i] + 1] == x && Distinct(chains0[i])
    ensures HasLevel(nodes, x, i) && HasLevel(nodes, Id(chains0[i], ps[i]), i)
    ensures Unlinked(nodes0, chains0, ps, top,
                     SetNext(nodes, Id(chains0[i], ps[i]), i, nodes[x].next[i]),
                     chains[i := RemoveAt(chains[i], ps[i] + 1)], i + 1)
  {
    var c := chains0[i];
    assert chains[i] == c;
    Unlink(nodes, i, c, ps[i] + 1);
    var last := Id(c, ps[i]);
    var r := SetNext(nodes, last, i, nodes[x].next[i]);
    var chains' := chains[i := RemoveAt(c, ps[i] + 1)];
    SetNextSameEntries(nodes, last, i, nodes[x].next[i]);
    forall j | 0 <= j < |chains'|
      ensures Linked(r, j, chains'[j])
    {
      if j != i {
        SetNextElsewhere(nodes, last, i, nodes[x].next[i], j, chains[j]);
      }
    }
  }

  // What insert and erase leave

  /** Linked levels hold nodes of the arena only. */
  lemma LinkedBounded<V>(nodes: seq<Node<V>>, chains: seq<seq<nat>>)
    requires forall j {:trigger Linked(nodes, j, chains[j])} :: 0 <= j < |chains| ==> Linked(nodes, j, chains[j])
    ensures Bounded(chains, |nodes|)
  {
    forall i, p | 0 <= i < |chains| && 0 <= p < |chains[i]|
      ensures 0 < chains[i][p] < |nodes|
    {
      assert Linked(nodes, i, chains[i]);
    }
  }

  /** Rewiring links keeps every node's number of links. */
  lemma ShapeKept<V>(nodes: seq<Node<V>>, maxLevel: nat, nodes': seq<Node<V>>)
    requires Shape(nodes, maxLevel) && SameEntries(nodes, nodes')
    ensures Shape(nodes', maxLevel)
  {
    SameEntriesAt(nodes, nodes');
  }

  /** So does allocating a node with one link per level it is on. */
  lemma ShapeAfterInsert<V>(nodes: seq<Node<V>>, maxLevel: nat, node: Node<V>, nodes': seq<Node<V>>)
    requires Shape(nodes, maxLevel) && |node.next| == node.level + 1
    requires SameEntries(nodes + [node], nodes')
    ensures Shape(nodes', maxLevel)
  {
    SameEntriesAt(nodes + [node], nodes');
    var grown := nodes + [node];
    forall y | 0 <= y < |grown|
      ensures |grown[y].next| == grown[y].level + 1
    {
      if y < |nodes| {
        assert grown[y] == nodes[y];
      }
    }
    ShapeKept(grown, maxLevel, nodes');
  }

  /** Level i after insert: the new node spliced in at the key's rank when i
      is at most the new node's level, untouched above; sorted either way. */
  lemma LevelAfterInsert<V>(nodes: seq<Node<V>>, i: nat, c: seq<nat>, key: Key, val: V, rl: nat,
                            nodes': seq<Node<V>>, c': seq<nat>, q: nat)
    requires LevelOk(nodes, i, c) && key !in KeysOf(nodes, c) && q == Rank(KeysOf(nodes, c), key)
    requires SameEntries(nodes + [NewNode(key, val, rl)], nodes')
    requires c' == (if i <= rl then InsertAt(c, q, |nodes|) else c)
    requires Linked(nodes', i, c')
    ensures LevelOk(nodes', i, c')
  {
    SameEntriesAt(nodes + [NewNode(key, val, rl)], nodes');
    if i <= rl {
      InsertSortedAt(nodes, c, key, val, rl, nodes', q);
    } else {
      KeysKeptAt(nodes, c, NewNode(key, val, rl), nodes');
    }
  }

  /** Every level after insert is a sorted chain, and level 0 has gained the
      key at its rank. */
  lemma LevelsAfterInsert<V>(nodes: seq<Node<V>>, maxLevel: nat, chains: seq<seq<nat>>, key: Key, val: V,
                             rl: nat, ps: seq<int>, nodes': seq<Node<V>>, chains': seq<seq<nat>>)
    requires Levels(nodes, maxLevel, chains) && rl <= maxLevel && |ps| == maxLevel + 1
    requires forall i :: 0 <= i <= maxLevel ==> key !in KeysOf(nodes, chains[i])
    requires forall i :: 0 <= i <= maxLevel ==>
      -1 <= ps[i] < |chains[i]| && ps[i] + 1 == Rank(KeysOf(nodes, chains[i]), key)
    requires SpliceDone(nodes + [NewNode(key, val, rl)], chains, |nodes|, ps, rl, nodes', chains')
    ensures Levels(nodes', maxLevel, chains')
    ensures KeysOf(nodes', chains'[0]) == InsertAt(KeysOf(nodes, chains[0]), ps[0] + 1, key)
  {
    forall i | 0 <= i <= maxLevel
      ensures LevelOk(nodes', i, chains'[i])
    {
      assert LevelOk(nodes, i, chains[i]) && Linked(nodes', i, chains'[i]);
      LevelAfterInsert(nodes, i, chains[i], key, val, rl, nodes', chains'[i], ps[i] + 1);
    }
    LinkedBounded(nodes', chains');
    assert LevelOk(nodes, 0, chains[0]);
    InsertSortedAt(nodes, chains[0], key, val, rl, nodes', ps[0] + 1);
  }

  /** After insert the new node is on levels 0 .. rl and every other node
      where it was. */
  lemma TowersAfterInsert<V>(nodes: seq<Node<V>>, maxLevel: nat, level: nat, chains: seq<seq<nat>>,
                             node: Node<V>, ps: seq<int>, nodes': seq<Node<V>>, chains': seq<seq<nat>>)
    requires |chains| == maxLevel + 1 && Towers(nodes, maxLevel, level, chains)
    requires Bounded(chains, |nodes|) && node.level <= maxLevel
    requires SameEntries(nodes + [node], nodes')
    requires |ps| == maxLevel + 1 && forall i :: 0 <= i <= node.level ==> -1 <= ps[i] < |chains[i]|
    requires SpliceDone(nodes + [node], chains, |nodes|, ps, node.level, nodes', chains')
    ensures |chains'| == maxLevel + 1
    ensures Towers(nodes', maxLevel, Max(level, node.level), chains')
  {
    SameEntriesAt(nodes + [node], nodes');
    var n, rl := |nodes|, node.level;
    forall i, y | 0 <= i <= maxLevel && 0 < y < |nodes'|
      ensures y in chains'[i] <==> y in chains'[0] && i <= nodes'[y].level
    {
      InsertAtMembers(chains[0], ps[0] + 1, n, y);
      assert chains'[0] == InsertAt(chains[0], ps[0] + 1, n);
      assert y in chains'[0] <==> y in chains[0] || y == n;
      if i <= rl {
        InsertAtMembers(chains[i], ps[i] + 1, n, y);
        assert chains'[i] == InsertAt(chains[i], ps[i] + 1, n);
        assert y in chains'[i] <==> y in chains[i] || y == n;
      } else {
        assert chains'[i] == chains[i];
      }
      if y == n {
        assert n !in chains[i] && n !in chains[0];
        assert nodes'[y].level == rl;
      } else {
        assert nodes'[y].level == nodes[y].level;
        assert y in chains[i] <==> y in chains[0] && i <= nodes[y].level;
      }
    }
    forall y | 0 < y < |nodes'| && y in chains'[0]
      ensures nodes'[y].level <= Max(level, rl)
    {
      InsertAtMembers(chains[0], ps[0] + 1, n, y);
    }
  }

  /** The new node's top level is non-empty, so the raised level is the
      highest non-empty one. */
  lemma TopAfterInsert<V>(maxLevel: nat, level: nat, chains: seq<seq<nat>>, n: nat, ps: seq<int>, rl: nat,
                          nodes0: seq<Node<V>>, nodes': seq<Node<V>>, chains': seq<seq<nat>>)
    requires |chains| == maxLevel + 1 && Top(maxLevel, level, chains) && rl <= maxLevel
    requires |ps| == maxLevel + 1 && forall i :: 0 <= i <= rl ==> -1 <= ps[i] < |chains[i]|
    requires SpliceDone(nodes0, chains, n, ps, rl, nodes', chains')
    ensures Top(maxLevel, Max(level, rl), chains')
  {
    assert |chains'[rl]| == |chains[rl]| + 1;
  }

  /** Insert keeps the invariant, with the level raised to rl if below it. */
  lemma InsertKeeps<V>(nodes: seq<Node<V>>, maxLevel: nat, level: nat, chains: seq<seq<nat>>,
                       key: Key, val: V, rl: nat, ps: seq<int>, nodes': seq<Node<V>>, chains': seq<seq<nat>>)
    requires Inv(nodes, maxLevel, level, chains)
    requires key !in KeysOf(nodes, chains[0]) && rl <= maxLevel
    requires |ps| == maxLevel + 1
    requires forall i :: 0 <= i <= maxLevel ==>
      -1 <= ps[i] < |chains[i]| && ps[i] + 1 == Rank(KeysOf(nodes, chains[i]), key)
    requires SpliceDone(nodes + [NewNode(key, val, rl)], chains, |nodes|, ps, rl, nodes', chains')
    ensures Inv(nodes', maxLevel, Max(level, rl), chains')
    ensures |chains'[0]| == |chains[0]| + 1
    ensures KeysOf(nodes', chains'[0]) == InsertAt(KeysOf(nodes, chains[0]), ps[0] + 1, key)
  {
    var node := NewNode(key, val, rl);
    AbsentEverywhere(nodes, maxLevel, level, chains, key);
    LevelsAfterInsert(nodes, maxLevel, chains, key, val, rl, ps, nodes', chains');
    ShapeAfterInsert(nodes, maxLevel, node, nodes');
    TowersAfterInsert(nodes, maxLevel, level, chains, node, ps, nodes', chains');
    TopAfterInsert(maxLevel, level, chains, |nodes|, ps, rl, nodes + [node], nodes', chains');
  }

  /** Level i after erase: node x unlinked where it was, at position q, and
      nothing changed where it was not; sorted either way. */
  lemma LevelAfterErase<V>(nodes: seq<Node<V>>, i: nat, c: seq<nat>, x: nat, top: nat, q: int,
                           nodes': seq<Node<V>>, c': seq<nat>)
    requires LevelOk(nodes, i, c) && SameEntries(nodes, nodes')
    requires i <= top ==> 0 <= q < |c| && c[q] == x
    requires top < i ==> x !in c
    requires c' == (if i <= top then RemoveAt(c, q) else c)
    requires Linked(nodes', i, c')
    ensures LevelOk(nodes', i, c') && c' == RemoveId(c, x)
  {
    SameEntriesAt(nodes, nodes');
    if i <= top {
      EraseSortedAt(nodes, c, q, x, nodes');
    } else {
      RemoveIdAbsent(c, x);
      SameKeys(nodes, nodes', c);
    }
  }

  /** Leaving out key k at its one position q of a sorted sequence leaves
      exactly the other keys. */
  lemma RemovedKey(ks: seq<Key>, q: nat, k: Key)
    requires Sorted(ks) && q < |ks| && ks[q] == k
    ensures forall k' :: k' in RemoveAt(ks, q) <==> k' in ks && k' != k
  {
    SortedKeysDistinct(ks);
    forall k'
      ensures k' in RemoveAt(ks, q) <==> k' in ks && k' != k
    {
      RemoveAtMembers(ks, q, k');
    }
  }

  /** Every level after erase is a sorted chain without node x, and level 0
      has lost exactly x's key. */
  lemma LevelsAfterErase<V>(nodes: seq<Node<V>>, maxLevel: nat, chains: seq<seq<nat>>, x: nat, ps: seq<int>,
                            nodes': seq<Node<V>>, chains': seq<seq<nat>>)
    requires Levels(nodes, maxLevel, chains)
    requires 0 < x < |nodes| && nodes[x].level <= maxLevel && |ps| == maxLevel + 1
    requires forall i :: 0 <= i <= nodes[x].level ==>
      -1 <= ps[i] && ps[i] + 1 < |chains[i]| && chains[i][ps[i] + 1] == x
    requires forall i :: nodes[x].level < i <= maxLevel ==> x !in chains[i]
    requires Unlinked(nodes, chains, ps, nodes[x].level, nodes', chains', nodes[x].level + 1)
    ensures Levels(nodes', maxLevel, chains')
    ensures forall i :: 0 <= i <= maxLevel ==> chains'[i] == RemoveId(chains[i], x)
    ensures forall k :: k in KeysOf(nodes', chains'[0]) <==> k in KeysOf(nodes, chains[0]) && k != nodes[x].key
  {
    forall i | 0 <= i <= maxLevel
      ensures LevelOk(nodes', i, chains'[i]) && chains'[i] == RemoveId(chains[i], x)
    {
      assert LevelOk(nodes, i, chains[i]) && Linked(nodes', i, chains'[i]);
      LevelAfterErase(nodes, i, chains[i], x, nodes[x].level, ps[i] + 1, nodes', chains'[i]);
    }
    assert LevelOk(nodes, 0, chains[0]);
    Level0AfterErase(nodes, chains[0], ps[0] + 1, x, nodes', chains'[0]);
  }

  /** Level 0 after erase holds every old key except x's. */
  lemma Level0AfterErase<V>(nodes: seq<Node<V>>, c: seq<nat>, q: nat, x: nat, nodes': seq<Node<V>>, c': seq<nat>)
    requires LevelOk(nodes, 0, c) && q < |c| && c[q] == x && x < |nodes|
    requires SameEntries(nodes, nodes') && c' == RemoveAt(c, q)
    ensures forall k :: k in KeysOf(nodes', c') <==> k in KeysOf(nodes, c) && k != nodes[x].key
  {
    EraseSortedAt(nodes, c, q, x, nodes');
    RemovedKey(KeysOf(nodes, c), q, nodes[x].key);
  }

  /** Node x is on no level above its own. */
  lemma AboveTower<V>(nodes: seq<Node<V>>, maxLevel: nat, level: nat, chains: seq<seq<nat>>, x: nat)
    requires |chains| == maxLevel + 1 && Towers(nodes, maxLevel, level, chains) && 0 < x < |nodes|
    ensures forall i :: nodes[x].level < i <= maxLevel ==> x !in chains[i]
  {
  }

  /** After erase node x is on no level, every other node where it was, and
      the lowered level still bounds every node. */
  lemma TowersAfterErase<V>(nodes: seq<Node<V>>, maxLevel: nat, level: nat, chains: seq<seq<nat>>,
                            x: nat, nodes': seq<Node<V>>, level': nat, chains': seq<seq<nat>>)
    requires |chains| == maxLevel + 1 && Towers(nodes, maxLevel, level, chains)
    requires level <= maxLevel && SameEntries(nodes, nodes') && |chains'| == maxLevel + 1
    requires forall i :: 0 <= i <= maxLevel ==> chains'[i] == RemoveId(chains[i], x)
    requires level' <= level && forall i :: level' < i <= maxLevel ==> chains'[i] == []
    ensures Towers(nodes', maxLevel, level', chains')
  {
    SameEntriesAt(nodes, nodes');
    forall y | 0 < y < |nodes'| && y in chains'[0]
      ensures nodes'[y].level <= level'
    {
      var l := nodes'[y].level;
      assert y in chains[0] && y != x;
      assert l <= level && y in chains[l];
      assert y in chains'[l];
    }
  }

  /** Erase keeps the invariant with the level it lowers to, and every level
      has lost node x. */
  lemma EraseKeeps<V>(nodes: seq<Node<V>>, maxLevel: nat, level: nat, chains: seq<seq<nat>>,
                      x: nat, ps: seq<int>, nodes': seq<Node<V>>, level': nat, chains': seq<seq<nat>>)
    requires Inv(nodes, maxLevel, level, chains)
    requires 0 < x < |nodes| && x in chains[0] && nodes[x].level <= maxLevel && |ps| == maxLevel + 1
    requires forall i :: 0 <= i <= nodes[x].level ==>
      -1 <= ps[i] && ps[i] + 1 < |chains[i]| && chains[i][ps[i] + 1] == x
    requires Unlinked(nodes, chains, ps, nodes[x].level, nodes', chains', nodes[x].level + 1)
    requires level' <= level && (forall i :: level' < i <= maxLevel ==> chains'[i] == [])
    requires level' == 0 || chains'[level'] != []
    ensures Inv(nodes', maxLevel, level', chains')
    ensures forall i :: 0 <= i <= maxLevel ==> chains'[i] == RemoveId(chains[i], x)
    ensures |chains'[0]| == |chains[0]| - 1
    ensures forall k :: k in KeysOf(nodes', chains'[0]) <==> k in KeysOf(nodes, chains[0]) && k != nodes[x].key
  {
    AboveTower(nodes, maxLevel, level, chains, x);
    LevelsAfterErase(nodes, maxLevel, chains, x, ps, nodes', chains');
    ShapeKept(nodes, maxLevel, nodes');
    TowersAfterErase(nodes, maxLevel, level, chains, x, nodes', level', chains');
  }

  // The descent

  /** The position on each level of the last node whose key is less than
      `key` (-1 for the header): where the descent stops on that level. */
  ghost function Positions<V>(nodes: seq<Node<V>>, chains: seq<seq<nat>>, key: Key): (ps: seq<int>)
    ensures |ps| == |chains|
    ensures forall i {:trigger ps[i]} :: 0 <= i < |chains| ==>
      -1 <= ps[i] < |chains[i]| && ps[i] + 1 == Rank(KeysOf(nodes, chains[i]), key)
  {
    seq(|chains|, i requires 0 <= i < |chains| => Rank(KeysOf(nodes, chains[i]), key) - 1)
  }

  /** The inner loop of the descent: from the node at position p0 of level i
      (whose key is less than `key`), follow next_[i] while the next key is
      less than `key`. It stops at the level's last node less than `key`. */
  method Advance<V>(nodes: seq<Node<V>>, ghost c: seq<nat>, i: nat, key: Key, cur0: nat, ghost p0: int)
      returns (cur: nat, ghost p: int)
    requires LevelOk(nodes, i, c)
    requires -1 <= p0 < |c| && cur0 == Id(c, p0)
    requires p0 == -1 || Less(KeysOf(nodes, c)[p0], key)
    ensures -1 <= p < |c| && p + 1 == Rank(KeysOf(nodes, c), key) && cur == Id(c, p)
  {
    ghost var ks := KeysOf(nodes, c);
    cur, p := cur0, p0;
    while nodes[cur].next[i] != Null && Less(nodes[nodes[cur].next[i].id].key, key)
      invariant -1 <= p < |c| && cur == Id(c, p)
      invariant p == -1 || Less(ks[p], key)
      decreases |c| - p
    {
      cur := nodes[cur].next[i].id;
      p := p + 1;
    }
    LastLessIsRank(ks, key, p);
  }

  /** A node the descent stopped at on level i > 0 is on level i - 1 too,
      still before `key`. */
  lemma StepDown<V>(nodes: seq<Node<V>>, maxLevel: nat, level: nat, chains: seq<seq<nat>>, key: Key, i: nat, p: nat)
    requires Levels(nodes, maxLevel, chains) && Towers(nodes, maxLevel, level, chains)
    requires 0 < i <= maxLevel && p < |chains[i]| && p + 1 == Rank(KeysOf(nodes, chains[i]), key)
    ensures 0 < chains[i][p] < |nodes| && chains[i][p] in chains[i - 1]
    ensures Less(nodes[chains[i][p]].key, key)
  {
    var c := chains[i];
    assert LevelOk(nodes, i, c);
    RankSplit(KeysOf(nodes, c), key, p);
    assert c[p] in c;
  }

  /** Where the descent stands before level i: `last_less` holds the stop
      on every level above i (NULL above the list's level), and cur is the
      header or the stop on level i + 1, which is on level i as well. */
  ghost predicate Descending<V>(nodes: seq<Node<V>>, chains: seq<seq<nat>>, maxLevel: nat, level: nat,
                                key: Key, ps: seq<int>, i: int, cur: nat, lastLess: seq<Link>)
    requires |chains| == maxLevel + 1 && level <= maxLevel && ps == Positions(nodes, chains, key)
  {
    -1 <= i <= level && |lastLess| == maxLevel + 1
    && (forall j :: 0 <= j <= maxLevel ==>
          lastLess[j] == (if i < j <= level then Ptr(Id(chains[j], ps[j])) else Null))
    && (0 <= i ==> cur == 0 || (0 < cur < |nodes| && cur in chains[i] && Less(nodes[cur].key, key)))
  }

  /** The descent insert, erase and search share: from the list's level
      down to 0, advance along each level while the next key is less than
      `key`, and remember where each level stopped. `last_less` holds that
      node on the levels in use and NULL above them. */
  method Descend<V>(nodes: seq<Node<V>>, ghost chains: seq<seq<nat>>, maxLevel: nat, level: nat, key: Key)
      returns (lastLess: seq<Link>, ghost ps: seq<int>)
    requires Levels(nodes, maxLevel, chains) && Top(maxLevel, level, chains)
    requires Towers(nodes, maxLevel, level, chains)
    ensures ps == Positions(nodes, chains, key) && |lastLess| == maxLevel + 1
    ensures forall i :: 0 <= i <= maxLevel ==>
      lastLess[i] == (if i <= level then Ptr(Id(chains[i], ps[i])) else Null)
    ensures forall i :: level < i <= maxLevel ==> ps[i] == -1
  {
    ps := Positions(nodes, chains, key);
    lastLess := seq(maxLevel + 1, _ => Null);
    var cur := 0;
    var i: int := level;
    while i >= 0
      invariant Descending(nodes, chains, maxLevel, level, key, ps, i, cur, lastLess)
      decreases i + 1
    {
      cur, lastLess := DescendLevel(nodes, chains, maxLevel, level, key, ps, i, cur, lastLess);
      i := i - 1;
    }
  }

  /** One level of the descent: advance on level i and record the stop. */
  method DescendLevel<V>(nodes: seq<Node<V>>, ghost chains: seq<seq<nat>>, maxLevel: nat, level: nat,
                         key: Key, ghost ps: seq<int>, i: nat, cur0: nat, lastLess0: seq<Link>)
      returns (cur: nat, lastLess: seq<Link>)
    requires Levels(nodes, maxLevel, chains) && level <= maxLevel
    requires Towers(nodes, maxLevel, level, chains)
    requires ps == Positions(nodes, chains, key)
    requires Descending(nodes, chains, maxLevel, level, key, ps, i, cur0, lastLess0)
    ensures Descending(nodes, chains, maxLevel, level, key, ps, i - 1, cur, lastLess)
  {
    ghost var p: int := -1;
    if cur0 != 0 {
      p :| 0 <= p < |chains[i]| && chains[i][p] == cur0;
    }
    assert LevelOk(nodes, i, chains[i]);
    cur, p := Advance(nodes, chains[i], i, key, cur0, p);
    assert p == ps[i];
    lastLess := lastLess0[i := Ptr(cur)];
    if 0 < i && cur != 0 {
      StepDown(nodes, maxLevel, level, chains, key, i, p);
    }
  }

  /** Every chain of the list is linked and repeats no node. */
  lemma LevelsDistinct<V>(nodes: seq<Node<V>>, maxLevel: nat, chains: seq<seq<nat>>)
    requires Levels(nodes, maxLevel, chains)
    ensures forall i :: 0 <= i <= maxLevel ==>
      Linked(nodes, i, chains[i]) && Distinct(chains[i])
  {
    forall i | 0 <= i <= maxLevel
      ensures Linked(nodes, i, chains[i]) && Distinct(chains[i])
    {
      assert LevelOk(nodes, i, chains[i]);
      SortedDistinct(nodes, chains[i]);
    }
  }

  /** Allocating the new node changes no level, and no level holds it yet. */
  lemma AppendLevels<V>(nodes: seq<Node<V>>, maxLevel: nat, chains: seq<seq<nat>>, node: Node<V>)
    requires Levels(nodes, maxLevel, chains)
    ensures forall i :: 0 <= i <= maxLevel ==>
      Linked(nodes + [node], i, chains[i]) && Distinct(chains[i]) && |nodes| !in chains[i]
  {
    forall i | 0 <= i <= maxLevel
      ensures Linked(nodes + [node], i, chains[i]) && Distinct(chains[i]) && |nodes| !in chains[i]
    {
      assert LevelOk(nodes, i, chains[i]);
      AppendElsewhere(nodes, node, i, chains[i]);
      SortedDistinct(nodes, chains[i]);
    }
  }

  // The rewiring

  /** Raising last_less to the new node's level rl: the levels above the
      list's level have no node before the new one but the header, so
      `last_less[i] = header_` for them. Afterwards last_less holds the
      descent's stop on every level up to rl. */
  method RaiseLastLess(lastLess: seq<Link>, level: nat, rl: nat, ghost chains: seq<seq<nat>>, ghost ps: seq<int>)
      returns (last: seq<Link>)
    requires |lastLess| == |chains| && |ps| == |chains| && level < |chains| && rl < |chains|
    requires forall i :: 0 <= i < |chains| ==> -1 <= ps[i] < |chains[i]|
    requires forall i :: 0 <= i < |chains| ==>
      lastLess[i] == (if i <= level then Ptr(Id(chains[i], ps[i])) else Null)
    requires forall i :: level < i < |chains| ==> ps[i] == -1
    ensures |last| == |lastLess|
    ensures forall i :: 0 <= i <= rl ==> last[i] == Ptr(Id(chains[i], ps[i]))
  {
    last := lastLess;
    if rl > level {
      var i := level + 1;
      while i <= rl
        invariant level + 1 <= i <= rl + 1 && |last| == |lastLess|
        invariant forall j :: 0 <= j < |last| ==> last[j] == if level < j < i then Ptr(0) else lastLess[j]
      {
        last := last[i := Ptr(0)];
        i := i + 1;
      }
    }
  }

  /** The splice loop of insert: on each level 0 .. rl, link node n in
      after last_less[i]. */
  method SpliceIn<V>(nodes: seq<Node<V>>, ghost chains: seq<seq<nat>>, n: nat, rl: nat,
                     lastLess: seq<Link>, ghost ps: seq<int>)
      returns (nodes': seq<Node<V>>, ghost chains': seq<seq<nat>>)
    requires 0 < n < |nodes| && rl < |nodes[n].next|
    requires rl < |chains| && |lastLess| == |chains| && |ps| == |chains|
    requires forall i {:trigger Linked(nodes, i, chains[i])} :: 0 <= i < |chains| ==>
      Linked(nodes, i, chains[i]) && Distinct(chains[i]) && n !in chains[i]
    requires forall i :: 0 <= i <= rl ==> -1 <= ps[i] < |chains[i]| && lastLess[i] == Ptr(Id(chains[i], ps[i]))
    ensures SpliceDone(nodes, chains, n, ps, rl, nodes', chains')
  {
    nodes', chains' := nodes, chains;
    var i := 0;
    while i <= rl
      invariant 0 <= i <= rl + 1
      invariant Spliced(nodes, chains, n, ps, rl, nodes', chains', i)
    {
      var last := lastLess[i].id;
      assert Linked(nodes, i, chains[i]);
      SpliceStep(nodes, chains, n, ps, rl, nodes', chains', i);
      nodes' := SetNext(nodes', n, i, nodes'[last].next[i]);
      nodes' := SetNext(nodes', last, i, Ptr(n));
      chains' := chains'[i := InsertAt(chains'[i], ps[i] + 1, n)];
      i := i + 1;
    }
    SplicedAll(nodes, chains, n, ps, rl, nodes', chains');
  }

  /** Insert once the key is known to be absent: raise last_less (and the
      level) to the new node's level, then link the node in. */
  method InsertNode<V>(nodes: seq<Node<V>>, ghost chains: seq<seq<nat>>, maxLevel: nat, level: nat,
                       key: Key, val: V, rl: nat, lastLess: seq<Link>, ghost ps: seq<int>)
      returns (nodes': seq<Node<V>>, ghost chains': seq<seq<nat>>, level': nat)
    requires Inv(nodes, maxLevel, level, chains) && key !in KeysOf(nodes, chains[0]) && rl <= maxLevel
    requires ps == Positions(nodes, chains, key) && |lastLess| == maxLevel + 1
    requires forall i :: 0 <= i <= maxLevel ==>
      lastLess[i] == (if i <= level then Ptr(Id(chains[i], ps[i])) else Null)
    requires forall i :: level < i <= maxLevel ==> ps[i] == -1
    ensures Inv(nodes', maxLevel, level', chains') && level' == Max(level, rl)
    ensures |chains'[0]| == |chains[0]| + 1
    ensures KeysOf(nodes', chains'[0]) == InsertAt(KeysOf(nodes, chains[0]), ps[0] + 1, key)
    ensures SameEntries(nodes + [NewNode(key, val, rl)], nodes')
    ensures forall i :: 0 <= i <= rl ==> chains'[i] == InsertAt(chains[i], Rank(KeysOf(nodes, chains[i]), key), |nodes|)
    ensures forall i :: rl < i <= maxLevel ==> chains'[i] == chains[i]
  {
    var last := RaiseLastLess(lastLess, level, rl, chains, ps);
    level' := Max(level, rl);
    nodes', chains' := LinkNode(nodes, chains, maxLevel, level, key, val, rl, last, ps);
  }

  /** Allocate the node `SkipListNode(key, val, rl)` and splice it into
      levels 0 .. rl after the nodes last_less names. */
  method LinkNode<V>(nodes: seq<Node<V>>, ghost chains: seq<seq<nat>>, maxLevel: nat, level: nat,
                     key: Key, val: V, rl: nat, last: seq<Link>, ghost ps: seq<int>)
      returns (nodes': seq<Node<V>>, ghost chains': seq<seq<nat>>)
    requires Inv(nodes, maxLevel, level, chains) && key !in KeysOf(nodes, chains[0]) && rl <= maxLevel
    requires ps == Positions(nodes, chains, key) && |last| == maxLevel + 1
    requires forall i :: 0 <= i <= rl ==> last[i] == Ptr(Id(chains[i], ps[i]))
    ensures Inv(nodes', maxLevel, Max(level, rl), chains')
    ensures |chains'[0]| == |chains[0]| + 1
    ensures KeysOf(nodes', chains'[0]) == InsertAt(KeysOf(nodes, chains[0]), ps[0] + 1, key)
    ensures SameEntries(nodes + [NewNode(key, val, rl)], nodes')
    ensures forall i :: 0 <= i <= rl ==> chains'[i] == InsertAt(chains[i], ps[i] + 1, |nodes|)
    ensures forall i :: rl < i <= maxLevel ==> chains'[i] == chains[i]
  {
    var node := NewNode(key, val, rl);
    AppendLevels(nodes, maxLevel, chains, node);
    nodes', chains' := SpliceIn(nodes + [node], chains, |nodes|, rl, last, ps);
    InsertKeeps(nodes, maxLevel, level, chains, key, val, rl, ps, nodes', chains');
  }

  /** The unlink loop of erase: on each level 0 .. top, make last_less[i]
      skip node x. */
  method UnlinkAll<V>(nodes: seq<Node<V>>, ghost chains: seq<seq<nat>>, x: nat, top: nat,
                      lastLess: seq<Link>, ghost ps: seq<int>)
      returns (nodes': seq<Node<V>>, ghost chains': seq<seq<nat>>)
    requires 0 < x < |nodes| && top <= nodes[x].level && top < |chains|
    requires |lastLess| == |chains| && |ps| == |chains|
    requires forall i {:trigger Linked(nodes, i, chains[i])} :: 0 <= i < |chains| ==>
      Linked(nodes, i, chains[i]) && Distinct(chains[i])
    requires forall i :: 0 <= i <= top ==>
      -1 <= ps[i] && ps[i] + 1 < |chains[i]| && chains[i][ps[i] + 1] == x
      && lastLess[i] == Ptr(Id(chains[i], ps[i]))
    ensures Unlinked(nodes, chains, ps, top, nodes', chains', top + 1)
  {
    nodes', chains' := nodes, chains;
    var i := 0;
    while i <= top
      invariant 0 <= i <= top + 1
      invariant Unlinked(nodes, chains, ps, top, nodes', chains', i)
    {
      assert Linked(nodes, i, chains[i]);
      UnlinkStep(nodes, chains, ps, top, nodes', chains', i, x);
      nodes' := SetNext(nodes', lastLess[i].id, i, nodes'[x].next[i]);
      chains' := chains'[i := RemoveAt(chains'[i], ps[i] + 1)];
      i := i + 1;
    }
  }

  /** The level-dropping loop of erase: lower the level while the header's
      link on it is NULL. It stops at the highest non-empty level. */
  method ShrinkLevel<V>(nodes: seq<Node<V>>, ghost chains: seq<seq<nat>>, maxLevel: nat, level: nat)
      returns (level': nat)
    requires level <= maxLevel && |chains| == maxLevel + 1
    requires |nodes| > 0 && |nodes[0].next| == maxLevel + 1
    requires forall i {:trigger Linked(nodes, i, chains[i])} :: 0 <= i < |chains| ==> Linked(nodes, i, chains[i])
    requires forall i :: level < i <= maxLevel ==> chains[i] == []
    ensures level' <= level
    ensures forall i :: level' < i <= maxLevel ==> chains[i] == []
    ensures level' == 0 || chains[level'] != []
  {
    level' := level;
    while level' > 0 && nodes[0].next[level'] == Null
      invariant level' <= level
      invariant forall i :: level' < i <= maxLevel ==> chains[i] == []
    {
      HeaderLink(nodes, level', chains[level']);
      level' := level' - 1;
    }
    HeaderLink(nodes, level', chains[level']);
  }

  /** Erase once node x holding the key is found: unlink it on each of its
      levels, then drop the emptied top levels. */
  method EraseNode<V>(nodes: seq<Node<V>>, ghost chains: seq<seq<nat>>, maxLevel: nat, level: nat,
                      key: Key, x: nat, lastLess: seq<Link>, ghost ps: seq<int>)
      returns (nodes': seq<Node<V>>, ghost chains': seq<seq<nat>>, level': nat)
    requires Inv(nodes, maxLevel, level, chains)
    requires 0 < x < |nodes| && x in chains[0] && nodes[x].key == key
    requires ps == Positions(nodes, chains, key) && |lastLess| == maxLevel + 1
    requires forall i :: 0 <= i <= maxLevel ==>
      lastLess[i] == (if i <= level then Ptr(Id(chains[i], ps[i])) else Null)
    ensures Inv(nodes', maxLevel, level', chains') && level' <= level
    ensures |chains'[0]| == |chains[0]| - 1
    ensures forall k :: k in KeysOf(nodes', chains'[0]) <==> k in KeysOf(nodes, chains[0]) && k != key
    ensures SameEntries(nodes, nodes')
    ensures forall i :: 0 <= i <= maxLevel ==> chains'[i] == RemoveId(chains[i], x)
  {
    UnlinkPositions(nodes, maxLevel, level, chains, key, ps, x);
    LevelsDistinct(nodes, maxLevel, chains);
    nodes', chains' := UnlinkAll(nodes, chains, x, nodes[x].level, lastLess, ps);
    AboveTower(nodes, maxLevel, level, chains, x);
    SameEntryAt(nodes, nodes', 0);
    level' := ShrinkLevel(nodes', chains', maxLevel, level);
    EraseKeeps(nodes, maxLevel, level, chains, x, ps, nodes', level', chains');
  }

  /** get_random_level: count flips while they come up heads, up to
      `max_level_`. */
  method GetRandomLevel(flips: nat -> bool, maxLevel: nat) returns (r: nat)
    ensures r == RandomLevel(flips, maxLevel)
  {
    r := 0;
    while r < maxLevel && flips(r)
      invariant r <= maxLevel
      invariant forall j :: 0 <= j < r ==> flips(j)
    {
      r := r + 1;
    }
  }

  /** The descent followed by `cur = last_less[0]->next_[0]`: cur holds
      `key` exactly when level 0 does, and is then the node at its rank. */
  method Locate<V>(nodes: seq<Node<V>>, ghost chains: seq<seq<nat>>, maxLevel: nat, level: nat, key: Key)
      returns (lastLess: seq<Link>, ghost ps: seq<int>, cur: Link)
    requires Inv(nodes, maxLevel, level, chains)
    ensures ps == Positions(nodes, chains, key) && |lastLess| == maxLevel + 1
    ensures forall i :: 0 <= i <= maxLevel ==>
      lastLess[i] == (if i <= level then Ptr(Id(chains[i], ps[i])) else Null)
    ensures forall i :: level < i <= maxLevel ==> ps[i] == -1
    ensures cur.Ptr? ==> 0 < cur.id < |nodes|
    ensures (cur.Ptr? && nodes[cur.id].key == key) <==> key in KeysOf(nodes, chains[0])
    ensures key in KeysOf(nodes, chains[0]) ==>
      Rank(KeysOf(nodes, chains[0]), key) < |chains[0]|
      && cur == Ptr(chains[0][Rank(KeysOf(nodes, chains[0]), key)])
  {
    lastLess, ps := Descend(nodes, chains, maxLevel, level, key);
    assert LevelOk(nodes, 0, chains[0]);
    cur := nodes[lastLess[0].id].next[0];
    NextAtRank(nodes, 0, chains[0], key, ps[0]);
    if key in KeysOf(nodes, chains[0]) {
      MemberAtRank(KeysOf(nodes, chains[0]), key);
    }
  }

  /** A sorted level holds a key in at most one node: the one at its rank. */
  lemma HolderAtRank<V>(nodes: seq<Node<V>>, i: nat, c: seq<nat>, key: Key)
    requires LevelOk(nodes, i, c)
    ensures forall y :: 0 <= y < |nodes| && y in c && nodes[y].key == key ==>
      Rank(KeysOf(nodes, c), key) < |c| && c[Rank(KeysOf(nodes, c), key)] == y
  {
    forall y | 0 <= y < |nodes| && y in c && nodes[y].key == key
      ensures Rank(KeysOf(nodes, c), key) < |c| && c[Rank(KeysOf(nodes, c), key)] == y
    {
      var j :| 0 <= j < |c| && c[j] == y;
      HeldAtRank(KeysOf(nodes, c), key, j);
    }
  }

  /** SkipList::insert on the list's state: -1 and no change when the key
      is present; otherwise a node of the drawn level spliced in at the
      key's rank, the level raised to it if below, and 0. */
  method InsertEntry<V>(nodes: seq<Node<V>>, ghost chains: seq<seq<nat>>, maxLevel: nat, level: nat,
                        key: Key, val: V, flips: nat -> bool)
      returns (r: int, nodes': seq<Node<V>>, ghost chains': seq<seq<nat>>, level': nat)
    requires Inv(nodes, maxLevel, level, chains)
    ensures key in KeysOf(nodes, chains[0]) ==>
      r == -1 && nodes' == nodes && chains' == chains && level' == level
    ensures key !in KeysOf(nodes, chains[0]) ==>
      r == 0 && Inv(nodes', maxLevel, level', chains')
      && level' == Max(level, RandomLevel(flips, maxLevel))
      && |chains'[0]| == |chains[0]| + 1
      && KeysOf(nodes', chains'[0]) == InsertAt(KeysOf(nodes, chains[0]), Rank(KeysOf(nodes, chains[0]), key), key)
      && SameEntries(nodes + [NewNode(key, val, RandomLevel(flips, maxLevel))], nodes')
      && (forall i :: 0 <= i <= RandomLevel(flips, maxLevel) ==>
            chains'[i] == InsertAt(chains[i], Rank(KeysOf(nodes, chains[i]), key), |nodes|))
      && (forall i :: RandomLevel(flips, maxLevel) < i <= maxLevel ==> chains'[i] == chains[i])
  {
    var lastLess, ps, cur := Locate(nodes, chains, maxLevel, level, key);
    if cur.Ptr? && nodes[cur.id].key == key {
      return -1, nodes, chains, level;
    }
    var randomLevel := GetRandomLevel(flips, maxLevel);
    assert LevelOk(nodes, 0, chains[0]);
    nodes', chains', level' := InsertNode(nodes, chains, maxLevel, level, key, val, randomLevel, lastLess, ps);
    r := 0;
  }

  /** SkipList::erase on the list's state: when a node holds `key`, unlink
      it from every level it is on and drop the emptied top levels;
      otherwise change nothing. */
  method EraseEntry<V>(nodes: seq<Node<V>>, ghost chains: seq<seq<nat>>, maxLevel: nat, level: nat, key: Key)
      returns (erased: bool, nodes': seq<Node<V>>, ghost chains': seq<seq<nat>>, level': nat)
    requires Inv(nodes, maxLevel, level, chains)
    ensures erased <==> key in KeysOf(nodes, chains[0])
    ensures key !in KeysOf(nodes, chains[0]) ==> nodes' == nodes && chains' == chains && level' == level
    ensures key in KeysOf(nodes, chains[0]) ==>
      Inv(nodes', maxLevel, level', chains') && level' <= level
      && |chains'[0]| == |chains[0]| - 1
      && (forall k :: k in KeysOf(nodes', chains'[0]) <==> k in KeysOf(nodes, chains[0]) && k != key)
      && SameEntries(nodes, nodes')
      && Rank(KeysOf(nodes, chains[0]), key) < |chains[0]|
      && forall i :: 0 <= i <= maxLevel ==>
           chains'[i] == RemoveId(chains[i], chains[0][Rank(KeysOf(nodes, chains[0]), key)])
  {
    var lastLess, ps, cur := Locate(nodes, chains, maxLevel, level, key);
    erased := cur.Ptr? && nodes[cur.id].key == key;
    if erased {
      nodes', chains', level' := EraseNode(nodes, chains, maxLevel, level, key, cur.id, lastLess, ps);
    } else {
      nodes', chains', level' := nodes, chains, level;
    }
  }

  /** After splicing the new node in at the key's rank on level 0, it is
      a level-0 node holding the key and the value, and every old level-0
      node is still there with its key. */
  lemma NewHolders<V>(nodes: seq<Node<V>>, c: seq<nat>, key: Key, val: V, rl: nat,
                      nodes': seq<Node<V>>, c': seq<nat>)
    requires SameEntries(nodes + [NewNode(key, val, rl)], nodes')
    requires c' == InsertAt(c, Rank(KeysOf(nodes, c), key), |nodes|)
    ensures |nodes'| == |nodes| + 1 && |nodes| in c'
    ensures nodes'[|nodes|].key == key && nodes'[|nodes|].val == val
    ensures forall y :: 0 <= y < |nodes| && y in c ==>
      y in c' && nodes'[y].key == nodes[y].key && nodes'[y].val == nodes[y].val
  {
    SameEntriesAt(nodes + [NewNode(key, val, rl)], nodes');
    forall y | 0 <= y < |nodes| && y in c
      ensures y in c'
    {
      InsertAtMembers(c, Rank(KeysOf(nodes, c), key), |nodes|, y);
    }
  }

  class SkipList<V(0)> {

    const maxLevel: nat
    var nodes: seq<Node<V>>
    var level: nat
    var size: nat
    ghost var chains: seq<seq<nat>>

    ghost predicate Valid()
      reads this
    {
      Inv(nodes, maxLevel, level, chains) && size == |chains[0]|
    }

    /** The keys of the list in order: level 0. */
    ghost function Keys(): (ks: seq<Key>)
      reads this
      ensures Valid() ==> Sorted(ks) && |ks| == size
    {
      if |chains| == 0 then [] else
        assert Valid() ==> LevelOk(nodes, 0, chains[0]);
        KeysOf(nodes, chains[0])
    }

    /** The node that holds a key of the list: the only level-0 node
        holding it. */
    ghost function NodeOf(key: Key): (x: nat)
      reads this
      requires Valid() && key in Keys()
      ensures 0 < x < |nodes| && x in chains[0] && nodes[x].key == key
      ensures forall y :: 0 <= y < |nodes| && y in chains[0] && nodes[y].key == key ==> y == x
    {
      assert LevelOk(nodes, 0, chains[0]);
      MemberAtRank(Keys(), key);
      HolderAtRank(nodes, 0, chains[0], key);
      chains[0][Rank(Keys(), key)]
    }

    /** SkipList(max_level): level 0, no entries, a header with
        `max_level + 1` NULL links. */
    constructor (maxLevel: nat)
      ensures Valid() && this.maxLevel == maxLevel && level == 0 && Keys() == []
    {
      var blank: V :| true;
      this.maxLevel := maxLevel;
      nodes := [NewNode([], blank, maxLevel)];
      level := 0;
      size := 0;
      chains := seq(maxLevel + 1, _ => []);
      new;
      assert forall i :: 0 <= i <= maxLevel ==> LevelOk(nodes, i, chains[i]);
    }

    /** SkipList::search: the node holding `key`, or NULL when no node does. */
    method Search(key: Key) returns (r: Link)
      requires Valid()
      ensures r != Null <==> key in Keys()
      ensures key in Keys() ==> r == Ptr(NodeOf(key))
    {
      var lastLess, ps, cur := Locate(nodes, chains, maxLevel, level, key);
      if cur.Ptr? && nodes[cur.id].key == key {
        return cur;
      }
      return Null;
    }

    /** SkipList::size. */
    function Size(): (s: nat)
      reads this
      requires Valid()
      ensures s == |Keys()|
    {
      size
    }

    /** SkipList::insert: -1 and no change when the key is present; otherwise
        a node of the drawn level spliced into levels 0 .. that level at the
        key's place, the list's level raised to it if below, and 0. */
    method Insert(key: Key, val: V, flips: nat -> bool) returns (r: int)
      requires Valid()
      modifies this
      ensures Valid()
      ensures old(key in Keys()) ==> r == -1 && unchanged(this)
      ensures old(key !in Keys()) ==>
        r == 0 && size == old(size) + 1
        && level == Max(old(level), RandomLevel(flips, maxLevel))
        && Keys() == InsertAt(old(Keys()), Rank(old(Keys()), key), key)
        && SameEntries(old(nodes) + [NewNode(key, val, RandomLevel(flips, maxLevel))], nodes)
        && (forall i :: 0 <= i <= RandomLevel(flips, maxLevel) ==>
              chains[i] == InsertAt(old(chains)[i], Rank(KeysOf(old(nodes), old(chains)[i]), key), |old(nodes)|))
        && (forall i :: RandomLevel(flips, maxLevel) < i <= maxLevel ==> chains[i] == old(chains)[i])
      ensures old(key !in Keys()) ==>
        NodeOf(key) == |old(nodes)| && nodes[NodeOf(key)].val == val
        && forall k :: k in old(Keys()) ==>
             k in Keys() && NodeOf(k) == old(NodeOf(k)) && nodes[NodeOf(k)].val == old(nodes[NodeOf(k)].val)
    {
      ghost var keys0, nodes0, chains0 := Keys(), nodes, chains;
      var nodes', level';
      ghost var chains';
      r, nodes', chains', level' := InsertEntry(nodes, chains, maxLevel, level, key, val, flips);
      if r == 0 {
        nodes, chains, level, size := nodes', chains', level', size + 1;
        assert Valid();
        NewHolders(nodes0, chains0[0], key, val, RandomLevel(flips, maxLevel), nodes, chains[0]);
        assert NodeOf(key) == |nodes0|;
        forall k | k in keys0
          ensures k in Keys() && NodeOf(k) == old(NodeOf(k)) && nodes[NodeOf(k)].val == old(nodes[NodeOf(k)].val)
        {
          InsertAtMembers(keys0, Rank(keys0, key), key, k);
          ghost var x0 := old(NodeOf(k));
          assert x0 in chains0[0] && nodes[x0].key == k && nodes[x0].val == nodes0[x0].val;
        }
      }
    }

    /** SkipList::erase: when a node holds `key`, unlink it from every level
        it is on, drop the emptied top levels and count one entry less;
        otherwise change nothing. */
    method Erase(key: Key)
      requires Valid()
      modifies this
      ensures Valid()
      ensures old(key !in Keys()) ==> unchanged(this)
      ensures old(key in Keys()) ==>
        size == old(size) - 1 && level <= old(level)
        && key !in Keys()
        && (forall k :: k in Keys() <==> k in old(Keys()) && k != key)
        && SameEntries(old(nodes), nodes)
        && (forall i :: 0 <= i <= maxLevel ==> chains[i] == RemoveId(old(chains[i]), old(NodeOf(key))))
        && forall k :: k in Keys() ==>
             k in old(Keys()) && NodeOf(k) == old(NodeOf(k)) && nodes[NodeOf(k)].val == old(nodes[NodeOf(k)].val)
    {
      ghost var keys0, nodes0, chains0 := Keys(), nodes, chains;
      var erased, nodes', level';
      ghost var chains';
      erased, nodes', chains', level' := EraseEntry(nodes, chains, maxLevel, level, key);
      if erased {
        nodes, chains, level, size := nodes', chains', level', size - 1;
        assert Valid();
        SameEntriesAt(nodes0, nodes);
        forall k | k in Keys()
          ensures k in keys0 && NodeOf(k) == old(NodeOf(k)) && nodes[NodeOf(k)].val == old(nodes[NodeOf(k)].val)
        {
          ghost var x0 := old(NodeOf(k));
          assert x0 != old(NodeOf(key));
          assert x0 in chains[0] && nodes[x0].key == k;
        }
      }
    }
  }
}
