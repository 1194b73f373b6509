/**
 * The BloomFilter of bloomfilter.h and bloomfilter.cpp: `hash_count_`
 * probes into a Bitset of `bitset_size_` bits, probe i of a key being
 * `murmurhash3_x86_32(key, |key|, i) % bitset_size_`. `insert` sets every
 * probed bit, `contain` reports whether all of them are set.
 *
 * The two sizes are constructor parameters here (the source derives them
 * from an expected count and a false-positive rate in floating point), and
 * so is the hash: the filter is built with `HashFunction`, the source's
 * `hash_function`, by the engine, and everything proved about the filter
 * holds for whatever hash it is given.
 *
 * What the filter does is stated on bit sequences first (`SetProbes`,
 * `AllProbesSet`), with the properties a Bloom filter promises proved about
 * them; the class's methods are then tied to those functions.
 */
module BloomFilters {

  import opened Words
  import opened MurmurHash3
  import opened Bitsets

  /** hash_count_ is an int, so seeds stay below 2^31. */
  const MaxHashCount: nat := 0x8000_0000

  /** A hash of a probe number (the seed) and the key's bytes. */
  type Hash = (u32, seq<byte>) -> u32

  /** BloomFilter::hash_function: the hash of the key's bytes with the probe
      number as seed. */
  function HashFunction(i: u32, key: seq<byte>): u32
  {
    Murmur3(key, i)
  }

  /** The bit that probe i inspects: always one of the filter's bits. */
  function Probe(hash: Hash, key: seq<byte>, i: nat, m: nat): (index: nat)
    requires i < MaxHashCount && m > 0
    ensures index < m
  {
    hash(i, key) % m
  }

  /** The bits after setting probes 0 .. n-1 of `key` in `bs`: a bit is set
      exactly when it was before or some probe chose it. */
  function SetProbes(hash: Hash, bs: seq<bool>, key: seq<byte>, n: nat, m: nat): (r: seq<bool>)
    requires n <= MaxHashCount && 0 < m <= |bs|
    ensures |r| == |bs|
    ensures forall j :: 0 <= j < |bs| ==>
      (r[j] <==> bs[j] || exists i :: 0 <= i < n && Probe(hash, key, i, m) == j)
  {
    if n == 0 then bs else SetProbes(hash, bs, key, n - 1, m)[Probe(hash, key, n - 1, m) := true]
  }

  /** All k probed bits of `key` are set: what `contain` answers. */
  predicate AllProbesSet(hash: Hash, bs: seq<bool>, key: seq<byte>, k: nat, m: nat)
    requires k <= MaxHashCount && 0 < m <= |bs|
  {
    forall i :: 0 <= i < k ==> bs[Probe(hash, key, i, m)]
  }

  /** Every bit that was set stays set. */
  predicate Includes(before: seq<bool>, after: seq<bool>)
  {
    |before| == |after| && forall j :: 0 <= j < |before| && before[j] ==> after[j]
  }

  /** No false negatives: once inserted, a key is reported. */
  lemma InsertedIsContained(hash: Hash, bs: seq<bool>, key: seq<byte>, k: nat, m: nat)
    requires k <= MaxHashCount && 0 < m <= |bs|
    ensures AllProbesSet(hash, SetProbes(hash, bs, key, k, m), key, k, m)
  {
    var r := SetProbes(hash, bs, key, k, m);
    forall i | 0 <= i < k
      ensures r[Probe(hash, key, i, m)]
    {
      assert exists i' :: 0 <= i' < k && Probe(hash, key, i', m) == Probe(hash, key, i, m);
    }
  }

  /** Insertion only ever turns bits on. */
  lemma InsertIsMonotone(hash: Hash, bs: seq<bool>, key: seq<byte>, k: nat, m: nat)
    requires k <= MaxHashCount && 0 < m <= |bs|
    ensures Includes(bs, SetProbes(hash, bs, key, k, m))
  {
  }

  /** A reported key stays reported whatever is inserted afterwards. */
  lemma ContainedStaysContained(hash: Hash, bs: seq<bool>, key: seq<byte>, other: seq<byte>, k: nat, m: nat)
    requires k <= MaxHashCount && 0 < m <= |bs|
    requires AllProbesSet(hash, bs, key, k, m)
    ensures AllProbesSet(hash, SetProbes(hash, bs, other, k, m), key, k, m)
  {
    var r := SetProbes(hash, bs, other, k, m);
    forall i | 0 <= i < k
      ensures r[Probe(hash, key, i, m)]
    {
      assert bs[Probe(hash, key, i, m)];
    }
  }

  /** Inserting a key twice sets the same bits as inserting it once. */
  lemma InsertIsIdempotent(hash: Hash, bs: seq<bool>, key: seq<byte>, k: nat, m: nat)
    requires k <= MaxHashCount && 0 < m <= |bs|
    ensures SetProbes(hash, SetProbes(hash, bs, key, k, m), key, k, m) == SetProbes(hash, bs, key, k, m)
  {
    var once := SetProbes(hash, bs, key, k, m);
    var twice := SetProbes(hash, once, key, k, m);
    forall j | 0 <= j < |bs|
      ensures twice[j] == once[j]
    {
    }
  }

  class BloomFilter {

    const bitsetSize: nat
    const hashCount: nat
    const hash: Hash
    const bitset: Bitset

    predicate Valid()
      reads this, bitset
    {
      0 < bitsetSize <= 32 * bitset.vec.Length && hashCount <= MaxHashCount
    }

    /** The filter's bits. */
    function Bits(): (bs: seq<bool>)
      reads this, bitset, bitset.vec
      ensures |bs| == 32 * bitset.vec.Length
    {
      bitset.Bits()
    }

    /** The constructor with its two sizes given: a fresh Bitset of
        `bitsetSize` bits, all clear. */
    constructor (bitsetSize: nat, hashCount: nat, hash: Hash)
      requires 0 < bitsetSize && bitsetSize + 31 < SizeBase
      requires hashCount <= MaxHashCount
      ensures Valid() && fresh(bitset) && fresh(bitset.vec)
      ensures this.bitsetSize == bitsetSize && this.hashCount == hashCount && this.hash == hash
      ensures forall i :: 0 <= i < |Bits()| ==> !Bits()[i]
    {
      this.bitsetSize := bitsetSize;
      this.hashCount := hashCount;
      this.hash := hash;
      var b := new Bitset(bitsetSize);
      bitset := b;
      WordCountIsCeiling(bitsetSize);
    }

    /** BloomFilter::insert: set the bit of each probe, i = 0 .. k-1. */
    method Insert(key: seq<byte>)
      requires Valid()
      modifies bitset.vec
      ensures Bits() == SetProbes(hash, old(Bits()), key, hashCount, bitsetSize)
    {
      var i := 0;
      while i < hashCount
        invariant i <= hashCount
        invariant Bits() == SetProbes(hash, old(Bits()), key, i, bitsetSize)
      {
        var index := hash(i, key) % bitsetSize;
        bitset.Set(index, true);
        i := i + 1;
      }
    }

    /** BloomFilter::contain: false at the first probe whose bit is clear,
        true when none is. */
    method Contain(key: seq<byte>) returns (b: bool)
      requires Valid()
      ensures b == AllProbesSet(hash, Bits(), key, hashCount, bitsetSize)
    {
      var i := 0;
      while i < hashCount
        invariant i <= hashCount
        invariant forall i' :: 0 <= i' < i ==> Bits()[Probe(hash, key, i', bitsetSize)]
      {
        var index := hash(i, key) % bitsetSize;
        if bitset.Get(index) == false {
          assert !Bits()[Probe(hash, key, i, bitsetSize)];
          return false;
        }
        i := i + 1;
      }
      return true;
    }
  }
}
