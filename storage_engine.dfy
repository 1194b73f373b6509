/**
 * The StorageEngine of storageEngine.h: a skip list holding the entries and
 * a Bloom filter in front of it. Every key the engine inserts is inserted
 * into the filter too, and erase and search consult the filter first,
 * touching the skip list only when the filter says the key may be present.
 *
 * The engine keeps one invariant, `Covered`: every key of the skip list is
 * reported by the filter. A Bloom filter has no false negatives, so the
 * filter's "absent" is always right, and the shortcut in erase and search
 * never hides an entry.
 */
module StorageEngines {

  import opened KeyOrder
  import opened Bitsets
  import opened BloomFilters
  import opened SkipListLevels
  import opened SkipLists

  /** Every key of `keys` is reported by a filter with these bits. */
  ghost predicate Covered(hash: Hash, bs: seq<bool>, k: nat, m: nat, keys: seq<Key>)
    requires k <= MaxHashCount && 0 < m <= |bs|
  {
    forall key :: key in keys ==> AllProbesSet(hash, bs, key, k, m)
  }

  /** Setting a key's probes when all of them are already set changes
      nothing: the `contain` test before insert only saves work. */
  lemma SetProbesWhenContained(hash: Hash, bs: seq<bool>, key: Key, k: nat, m: nat)
    requires k <= MaxHashCount && 0 < m <= |bs|
    requires AllProbesSet(hash, bs, key, k, m)
    ensures SetProbes(hash, bs, key, k, m) == bs
  {
    var r := SetProbes(hash, bs, key, k, m);
    assert forall j :: 0 <= j < |bs| ==> r[j] == bs[j];
  }

  /** Setting a new key's probes keeps the old keys covered and covers the
      new key. */
  lemma CoveredAfterInsert(hash: Hash, bs: seq<bool>, k: nat, m: nat, keys: seq<Key>, key: Key, keys': seq<Key>)
    requires k <= MaxHashCount && 0 < m <= |bs|
    requires Covered(hash, bs, k, m, keys)
    requires forall x :: x in keys' ==> x in keys || x == key
    ensures Covered(hash, SetProbes(hash, bs, key, k, m), k, m, keys')
  {
    var bs' := SetProbes(hash, bs, key, k, m);
    forall x | x in keys'
      ensures AllProbesSet(hash, bs', x, k, m)
    {
      if x == key {
        InsertedIsContained(hash, bs, key, k, m);
      } else {
        ContainedStaysContained(hash, bs, x, key, k, m);
      }
    }
  }

  class StorageEngine<V(0)> {

    const skipList: SkipList<V>
    const bloomFilter: BloomFilter

    ghost predicate Valid()
      reads this, skipList, bloomFilter, bloomFilter.bitset, bloomFilter.bitset.vec
    {
      skipList.Valid() && bloomFilter.Valid()
      && Covered(bloomFilter.hash, bloomFilter.Bits(), bloomFilter.hashCount, bloomFilter.bitsetSize, skipList.Keys())
    }

    /** Whether the filter reports `key`: what `bloom_filter_->contain`
        answers. */
    ghost predicate MayContain(key: Key)
      reads this, bloomFilter, bloomFilter.bitset, bloomFilter.bitset.vec
      requires bloomFilter.Valid()
    {
      AllProbesSet(bloomFilter.hash, bloomFilter.Bits(), key, bloomFilter.hashCount, bloomFilter.bitsetSize)
    }

    /** StorageEngine(...): a Bloom filter, built with `hash_function`, of
        the given size and probe count, and an empty skip list of the given
        maximum level. */
    constructor (bitsetSize: nat, hashCount: nat, maxLevel: nat)
      requires 0 < bitsetSize && bitsetSize + 31 < SizeBase
      requires hashCount <= MaxHashCount
      ensures Valid() && fresh(skipList) && fresh(bloomFilter) && fresh(bloomFilter.bitset) && fresh(bloomFilter.bitset.vec)
      ensures bloomFilter.hash == HashFunction && bloomFilter.bitsetSize == bitsetSize && bloomFilter.hashCount == hashCount
      ensures skipList.maxLevel == maxLevel && skipList.Keys() == []
      ensures forall i :: 0 <= i < |bloomFilter.Bits()| ==> !bloomFilter.Bits()[i]
    {
      bloomFilter := new BloomFilter(bitsetSize, hashCount, HashFunction);
      skipList := new SkipList(maxLevel);
    }

    /** insert: put the key into the filter unless the filter already
        reports it, then insert into the skip list and return its result. */
    method Insert(key: Key, val: V, flips: nat -> bool) returns (r: int)
      requires Valid()
      modifies skipList, bloomFilter.bitset.vec
      ensures Valid() && MayContain(key)
      ensures bloomFilter.Bits() ==
        if old(MayContain(key)) then old(bloomFilter.Bits())
        else SetProbes(bloomFilter.hash, old(bloomFilter.Bits()), key, bloomFilter.hashCount, bloomFilter.bitsetSize)
      ensures (r == 0 <==> key !in old(skipList.Keys())) && (r == -1 <==> key in old(skipList.Keys()))
      ensures skipList.Keys() ==
        if key in old(skipList.Keys()) then old(skipList.Keys())
        else InsertAt(old(skipList.Keys()), Rank(old(skipList.Keys()), key), key)
      ensures old(key in skipList.Keys()) ==> unchanged(skipList)
      ensures old(key !in skipList.Keys()) ==>
        skipList.NodeOf(key) == |old(skipList.nodes)| && skipList.nodes[skipList.NodeOf(key)].val == val
        && skipList.size == old(skipList.size) + 1
        && skipList.level == Max(old(skipList.level), RandomLevel(flips, skipList.maxLevel))
        && SameEntries(old(skipList.nodes) + [NewNode(key, val, RandomLevel(flips, skipList.maxLevel))], skipList.nodes)
        && (forall i :: 0 <= i <= RandomLevel(flips, skipList.maxLevel) ==>
              skipList.chains[i] == InsertAt(old(skipList.chains)[i],
                Rank(KeysOf(old(skipList.nodes), old(skipList.chains)[i]), key), |old(skipList.nodes)|))
        && (forall i :: RandomLevel(flips, skipList.maxLevel) < i <= skipList.maxLevel ==>
              skipList.chains[i] == old(skipList.chains)[i])
        && forall k :: k in old(skipList.Keys()) ==>
             k in skipList.Keys() && skipList.NodeOf(k) == old(skipList.NodeOf(k))
             && skipList.nodes[skipList.NodeOf(k)].val == old(skipList.nodes[skipList.NodeOf(k)].val)
    {
      ghost var bs0, keys0 := bloomFilter.Bits(), skipList.Keys();
      var contained := bloomFilter.Contain(key);
      if contained == false {
        bloomFilter.Insert(key);
      }
      r := skipList.Insert(key, val, flips);
      ghost var hash, k, m := bloomFilter.hash, bloomFilter.hashCount, bloomFilter.bitsetSize;
      if contained {
        SetProbesWhenContained(hash, bs0, key, k, m);
      }
      forall x | x in skipList.Keys()
        ensures x in keys0 || x == key
      {
        if key !in keys0 {
          InsertAtMembers(keys0, Rank(keys0, key), key, x);
        }
      }
      CoveredAfterInsert(hash, bs0, k, m, keys0, key, skipList.Keys());
      InsertedIsContained(hash, bs0, key, k, m);
    }

    /** erase: erase from the skip list only when the filter reports the
        key; the filter itself never changes. Since the filter has no false
        negatives, the key is gone from the skip list either way. */
    method Erase(key: Key)
      requires Valid()
      modifies skipList
      ensures Valid()
      ensures old(!MayContain(key)) ==> unchanged(skipList)
      ensures old(!MayContain(key)) ==> key !in old(skipList.Keys())
      ensures forall x :: x in skipList.Keys() <==> x in old(skipList.Keys()) && x != key
      ensures old(key !in skipList.Keys()) ==> unchanged(skipList)
      ensures old(key in skipList.Keys()) ==>
        skipList.size == old(skipList.size) - 1 && skipList.level <= old(skipList.level)
        && SameEntries(old(skipList.nodes), skipList.nodes)
        && (forall i :: 0 <= i <= skipList.maxLevel ==>
              skipList.chains[i] == RemoveId(old(skipList.chains)[i], old(skipList.NodeOf(key))))
      ensures forall k :: k in skipList.Keys() ==>
        skipList.NodeOf(k) == old(skipList.NodeOf(k))
        && skipList.nodes[skipList.NodeOf(k)].val == old(skipList.nodes[skipList.NodeOf(k)].val)
    {
      var contained := bloomFilter.Contain(key);
      if contained == true {
        skipList.Erase(key);
      }
    }

    /** search: NULL when the filter does not report the key, the skip
        list's search result otherwise; which, under the invariant, is the
        skip list's search result for every key. */
    method Search(key: Key) returns (r: Link)
      requires Valid()
      ensures !MayContain(key) ==> r == Null && key !in skipList.Keys()
      ensures r != Null <==> key in skipList.Keys()
      ensures key in skipList.Keys() ==> r == Ptr(skipList.NodeOf(key))
    {
      var contained := bloomFilter.Contain(key);
      if contained == true {
        r := skipList.Search(key);
        return;
      }
      return Null;
    }
  }
}
