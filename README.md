# KV-StorageEngine in Dafny

A model of the in-memory core of the KV-StorageEngine key-value store. The
engine is a skip list of key/value entries with a Bloom filter in front of
it. Beside them sits an LRU cache of skip-list nodes. Every piece is modelled
in the form it takes in the C++ source, and its behaviour is proved against a
specification.

- `words.dfy` (module `Words`): `uint32_t` and `uint8_t` as bounded
  integers. Multiplication, addition and shifts wrap modulo 2^32, and the
  bitwise operators work one binary digit at a time.
- `murmurhash3.dfy` (module `MurmurHash3`): the hand-written
  `murmurhash3_x86_32`. It is a method with the source's block loop and tail
  switch, proved equal to the recursive definition `Murmur3`. This variant
  xors the *residual* length (`len` after the loop, that is |key| mod 4) into
  the state before the finaliser. The published MurmurHash3_x86_32 xors the
  whole length. `Murmur3Reference` is the published algorithm. Two lemmas
  show that the two agree below 4 bytes, and that from 4 up to 2^32 - 1
  bytes the finaliser receives a different input from the one the published
  algorithm gives it.
- `bitset.dfy` (module `Bitsets`): the `Bitset`. It is a class over a fixed
  `array` of 32-bit words. Its bits are viewed as a `seq<bool>`.
- `bloomfilter.dfy` (module `BloomFilters`): the `BloomFilter`. Probe i of a
  key is `hash(i, key) % bitset_size_`. The filter is stated on bit
  sequences (`SetProbes`, `AllProbesSet`). On those it is proved that the
  filter has no false negatives, that bits only go from 0 to 1, and that
  insertion is idempotent.
- `key_order.dfy` (module `KeyOrder`): keys are byte strings ordered as
  `std::string::operator<` orders them. The module also holds the facts
  about strictly sorted sequences that the skip list needs.
- `skiplist_levels.dfy` and `skiplist.dfy` (modules `SkipListLevels` and
  `SkipLists`): the `SkipList`. It is a class whose nodes live in an arena
  (`seq<Node<V>>`, node 0 being `header_`). A ghost field `chains` holds,
  per level, the node ids that following `next_[i]` from the header visits.
  The invariant `Inv` says:
  - every level is strictly sorted;
  - a node is on exactly levels 0 .. its own level;
  - `skip_list_level_` is the highest non-empty level, or 0.

  The class's `Valid` adds that `size_` is the length of level 0.

  Each public operation is a class method that calls a module-level method
  on the list's state (`Locate`, `InsertEntry`, `EraseEntry`). That method
  carries out the source's loops over the `last_less` array.
- `lru_cache.dfy` (module `LruCaches`): the `LRUCache`. Its list nodes live
  in an arena (0 is `head`, 1 is `tail`), with a `map` from key to node
  and a ghost `order` of the nodes from head to tail. `Agree` states
  that the map and the list hold the same entries. `Valid` also states that
  `size` is the length of the list and that the size is within capacity.
- `storage_engine.dfy` (module `StorageEngines`): the `StorageEngine`. Its
  invariant `Covered` says that every skip-list key is reported by the
  filter. Under it, the engine's `search` returns what the skip list's
  search returns. Its `erase` and `insert` state the same effect on the
  skip list as the skip list's own `erase` and `insert`, with the filter
  test in front. After either one, every remaining key keeps its node and
  value.

The engine's key type is fixed to byte strings, because the Bloom filter's
`insert` and `contain` take `const std::string&`. The LRU cache reads a stored
node's key only through `key()`, so it is generic: it takes a key type, a
pointer type and the function `keyOf`.

## Model

| member | source | states |
|---|---|---|
| MurmurHash3.Murmur3X86_32 | murmurhash3.h:12-57 | the block loop, tail switch, `h ^= (uint32_t)len` and fmix32 compute exactly `Murmur3(key, seed)` |
| MurmurHash3.BlockLoop | murmurhash3.h:19-34 | the loop leaves `len` = key length mod 4 bytes, the offset points at the residue, and the state is the blocks mixed in order |
| MurmurHash3.MixTail | murmurhash3.h:37-46 | the fall-through switch on the 0..3 leftover bytes mixes them as `Tail` defines |
| MurmurHash3.BlocksMixesWords | murmurhash3.h:19-34 | the block loop mixes exactly the (length / 4) little-endian words, first word first |
| MurmurHash3.BlocksAppend | murmurhash3.h:19-34 | splitting the input at a block boundary splits the block loop |
| MurmurHash3.AgreesBelowOneBlock | murmurhash3.h:49 | below 4 bytes the variant equals the published MurmurHash3_x86_32 |
| MurmurHash3.FinaliserInputDeparts | murmurhash3.h:49 | from 4 bytes up to 2^32 - 1 bytes the finaliser's input differs from the published algorithm's |
| MurmurHash3.LengthWords | murmurhash3.h:49 | the residual length and `(uint32_t)len` coincide below 4 and differ from 4 up to 2^32 - 1 |
| Bitsets.WordCountIsCeiling | bloomfilter.h:13 | `(size + 31) >> 5` is ceil(size / 32) words, so every bit index below `size` has a word |
| Bitsets.WordCountWraps | bloomfilter.h:13 | within 31 of 2^64 the size_t sum wraps and no word is allocated |
| Bitsets.OrMask | bloomfilter.cpp:6 | or-ing the mask sets that bit and keeps all others |
| Bitsets.AndNotMask | bloomfilter.cpp:8 | and-ing with `~mask` clears that bit and keeps all others |
| Bitsets.AndMask | bloomfilter.cpp:12 | `word & mask` is non-zero exactly when that bit is set |
| Bitsets.WordsBitsAt | bloomfilter.cpp:6 | bit i of the packed sequence is bit i % 32 of word i >> 5 |
| Bitsets.UpdateWordBits | bloomfilter.cpp:4-9 | replacing the word with one that differs from it in one bit changes exactly that bit of the sequence |
| Bitsets.Bitset.constructor | bloomfilter.h:13 | `WordCount(size)` value-initialised words: every bit false |
| Bitsets.Bitset.Set | bloomfilter.cpp:4-9 | the bits afterwards are the old bits with bit `index` set to `val`, and no other bit changes |
| Bitsets.Bitset.Get | bloomfilter.cpp:11-16 | returns exactly bit `index` |
| BloomFilters.Probe | bloomfilter.cpp:41 | every probe index lies below `bitset_size_` |
| BloomFilters.SetProbes | bloomfilter.cpp:39-44 | after probes 0..n-1, a bit is set iff it was set before or some probe chose it |
| BloomFilters.InsertedIsContained | bloomfilter.cpp:39-54 | no false negatives: after `insert(key)`, `contain(key)` holds |
| BloomFilters.InsertIsMonotone | bloomfilter.cpp:39-44 | insert only turns bits on |
| BloomFilters.ContainedStaysContained | bloomfilter.cpp:39-54 | a reported key stays reported whatever is inserted later |
| BloomFilters.InsertIsIdempotent | bloomfilter.cpp:39-44 | inserting a key twice sets the same bits as inserting it once |
| BloomFilters.BloomFilter.constructor | bloomfilter.cpp:18-25 | a fresh Bitset of `bitset_size_` bits, all clear, with the given probe count and hash |
| BloomFilters.BloomFilter.Insert | bloomfilter.cpp:39-44 | the bits afterwards are `SetProbes` of the old bits for `hash_count_` probes |
| BloomFilters.BloomFilter.Contain | bloomfilter.cpp:46-54 | returns true iff every probed bit is set; false at the first clear one |
| KeyOrder.LessIrreflexive | skiplist.h:116 | no key is less than itself |
| KeyOrder.LessTransitive | skiplist.h:116 | the string order is transitive |
| KeyOrder.LessTrichotomy | skiplist.h:116-124 | any two keys are less, equal or greater, so stopping at the first key not less tells presence |
| KeyOrder.LessAsymmetric | skiplist.h:116 | at most one of `a < b` and `b < a` holds |
| KeyOrder.RankSplit | skiplist.h:116-118 | in a sorted level, the keys before the rank are exactly those less than the key |
| KeyOrder.MemberAtRank | skiplist.h:121-124 | a present key sits at its rank |
| KeyOrder.HeldAtRank | skiplist.h:121-124 | in a sorted level a key can be held only at its rank, so no key appears twice |
| KeyOrder.InsertAtRankSorted | skiplist.h:140-143 | inserting an absent key at its rank keeps a level sorted and adds exactly that key |
| KeyOrder.RemoveAtSorted | skiplist.h:167-169 | removing any element keeps a level sorted |
| KeyOrder.SortedSubsetIsSubsequence | skiplist.h:140-143 | a sorted level whose keys all occur in a sorted lower level is a subsequence of it |
| SkipListLevels.NewNode | skiplist.h:65-72 | a node with the key, value and level, and `level + 1` NULL links |
| SkipListLevels.Splice | skiplist.h:141-142 | the two link updates put the new node into level i's chain right after the last-less position |
| SkipListLevels.SpliceElsewhere | skiplist.h:141-142 | a splice at level i changes no entry and no other level |
| SkipListLevels.Unlink | skiplist.h:168 | `last_less[i]->next_[i] = cur->next_[i]` drops cur from level i's chain |
| SkipListLevels.RemoveId | skiplist.h:167-169 | a chain without node x keeps every other node |
| SkipListLevels.RemoveAtIsRemoveId | skiplist.h:167-169 | removing the position of x is removing x, on a chain without repeats |
| SkipLists.RandomLevel | skiplist.h:195-202 | the level is at most `max_level_`, every flip before it is heads, and it stops at the cap or the first tails |
| SkipLists.GetRandomLevel | skiplist.h:195-202 | the loop returns `RandomLevel(flips, max_level_)` |
| SkipLists.Advance | skiplist.h:116-118 | the inner while loop stops at the last node of the level whose key is less than the key |
| SkipLists.StepDown | skiplist.h:115-119 | the node where one level stops is on the level below and its key is less than the key, so the descent may resume from it |
| SkipLists.Descend | skiplist.h:115-120 | `last_less[i]` is the last-less node of every level up to `skip_list_level_`, NULL above it |
| SkipLists.Locate | skiplist.h:115-124 | `cur = last_less[0]->next_[0]` holds the key iff the key is in the list, and is then its node |
| SkipLists.RaiseLastLess | skiplist.h:132-135 | levels above the old list level get the header as their last-less node |
| SkipLists.SpliceIn | skiplist.h:140-143 | levels 0..random_level each get the new node at the key's position; the other levels and all entries are unchanged |
| SkipLists.LinkNode | skiplist.h:138-143 | appending the new node and splicing it keeps the invariant, with the level raised, and adds the key in sorted position |
| SkipLists.InsertNode | skiplist.h:130-144 | the absent-key branch of insert keeps the invariant, sets the level to max(old, random_level) and inserts the key at its rank |
| SkipLists.InsertKeeps | skiplist.h:130-144 | a splice on levels 0..rl of a fresh node keeps every level sorted and every tower whole |
| SkipLists.UnlinkAll | skiplist.h:167-169 | the erase loop drops the node from each level 0..its level, and nothing else changes |
| SkipLists.ShrinkLevel | skiplist.h:171-173 | the while loop lowers the level to the highest non-empty level, or 0 |
| SkipLists.EraseNode | skiplist.h:165-175 | the present-key branch of erase keeps the invariant, drops only the key, and removes the node from every level |
| SkipLists.EraseKeeps | skiplist.h:165-175 | unlinking a node from its levels and shrinking keeps every level sorted and every tower whole |
| SkipLists.AbsentEverywhere | skiplist.h:121-127 | a key missing from level 0 is on no level |
| SkipLists.LevelsNest | skiplist.h:140-143 | every level's keys are a subsequence of level 0's |
| SkipLists.InsertEntry | skiplist.h:108-148 | present key: -1 and nothing changes; absent key: 0, the invariant, the new level, the key inserted at its rank, the new node appended to the arena, and on each level 0 .. the random level the new node spliced in at the key's rank, the higher levels unchanged |
| SkipLists.EraseEntry | skiplist.h:150-179 | erases iff present; absent: nothing changes; present: the invariant, the key gone, and the node off every level |
| SkipLists.SkipList.Keys | skiplist.h:46 | the list's keys, level 0 in order, are strictly sorted and `size_` long |
| SkipLists.SkipList.NodeOf | skiplist.h:181-193 | a key of the list is held by a level-0 node, and by no other level-0 node |
| SkipLists.SkipList.constructor | skiplist.h:89-95 | level 0, size 0, a header with `max_level + 1` NULL links, no keys |
| SkipLists.SkipList.Search | skiplist.h:181-193 | non-NULL iff the key is present, and then the node holding it; no state changes |
| SkipLists.SkipList.Size | skiplist.h:217-220 | the number of keys |
| SkipLists.SkipList.Insert | skiplist.h:108-148 | present key: -1 and the list unchanged, value included; absent key: 0, size + 1, level = max(old, random level), the key inserted in sorted position, the old entries kept, each level 0 .. the random level gains the new node at the key's rank; the key's node is then the new node, holding `val`, and every old key keeps its node and value |
| SkipLists.SkipList.Erase | skiplist.h:150-179 | absent key: unchanged; present key: size - 1, the key gone and every other key kept, the level not raised, the node unlinked from every level, every remaining key keeping its node and value |
| LruCaches.UnlinkAt | LRUcache.h:65-66 | `remove(cur)` changes only the forward link of cur's predecessor and the backward link of its successor |
| LruCaches.LinkFrontAt | LRUcache.h:72-75 | `push_front(cur)` changes only the links of head, cur and head's old successor |
| LruCaches.UnlinkLinkAt | LRUcache.h:63-68 | after `remove(cur)` neighbouring positions of the shortened list link both ways |
| LruCaches.UnlinkLinked | LRUcache.h:63-68 | unlinking the entry at position p leaves a well-linked list without it, and no stored pointer changes |
| LruCaches.LinkFrontLinkAt | LRUcache.h:70-77 | after `push_front(cur)` neighbouring positions of the lengthened list link both ways |
| LruCaches.LinkFrontLinked | LRUcache.h:70-77 | pushing an unlisted node gives a well-linked list with it first, and no stored pointer changes |
| LruCaches.SetPayload | LRUcache.h:96 | giving a listed node a new skip-list pointer changes that entry only |
| LruCaches.AgreeDistinct | LRUcache.h:30 | when map and list agree, no key is listed twice |
| LruCaches.AgreeAfterPromote | LRUcache.h:83-86 | moving an entry to the front, maybe with a new pointer for the same key, keeps map and list agreeing |
| LruCaches.AgreeAfterRemove | LRUcache.h:57-59 | dropping an entry and its key keeps them agreeing |
| LruCaches.AgreeAfterPush | LRUcache.h:102-104 | a new key's entry in front and in the map keeps them agreeing |
| LruCaches.Evict | LRUcache.h:106-110 | after adding a new key, exactly the last entry is dropped when the list exceeds capacity, and nothing otherwise |
| LruCaches.EvictWithinCapacity | LRUcache.h:107-110 | one push with at most one eviction keeps the cache within capacity |
| LruCaches.LRUCache.Position | LRUcache.h:30 | a cached key's node is on the list, and the entry there has that key |
| LruCaches.LRUCache.constructor | LRUcache.h:33-43 | size 0, head and tail linked to each other, empty map, the given capacity |
| LruCaches.LRUCache.RemoveNode | LRUcache.h:63-68 | the entry leaves the list, size - 1, the map and all pointers unchanged |
| LruCaches.LRUCache.PushFront | LRUcache.h:70-77 | the node becomes the first entry, size + 1, the map and all pointers unchanged |
| LruCaches.LRUCache.MoveToFront | LRUcache.h:84-85 | remove then push_front makes entry p the most recent and keeps the others in order |
| LruCaches.LRUCache.Get | LRUcache.h:79-89 | hit: returns the stored pointer, whose key is the key, and moves that entry to the head with the rest in order; miss: NULL, nothing changes |
| LruCaches.LRUCache.Replace | LRUcache.h:95-99 | an existing key takes the new pointer and moves to the head; map and size unchanged |
| LruCaches.LRUCache.AddFront | LRUcache.h:102-104 | a new node in front and its key in the map |
| LruCaches.LRUCache.DropLast | LRUcache.h:107-110 | the entry before tail leaves the list, and its key, read through `key()`, leaves the map |
| LruCaches.LRUCache.Insert | LRUcache.h:91-111 | existing key: new pointer promoted, same keys and size; new key: the entry in front and, over capacity, exactly the least recently used entry evicted; map and list agree and size stays within capacity |
| LruCaches.LRUCache.Remove | LRUcache.h:54-61 | absent key: nothing changes; present key: its entry dropped with the rest in order, its key out of the map, size - 1 |
| StorageEngines.SetProbesWhenContained | storageEngine.h:34-36 | inserting a key the filter already reports would change no bit, so the `contain` test only saves work |
| StorageEngines.CoveredAfterInsert | storageEngine.h:32-39 | inserting a key into the filter keeps every old key reported and reports the new one |
| StorageEngines.StorageEngine.constructor | storageEngine.h:18-23 | a filter built with `hash_function`, all bits clear, and an empty skip list |
| StorageEngines.StorageEngine.Insert | storageEngine.h:32-39 | afterwards the filter reports the key, its bits changing only if it did not before; returns the skip list's 0/-1; a key already present leaves the skip list, its values included, unchanged; a new key is inserted in sorted position in a new node holding `val`, with size + 1, the raised level, the old entries kept, and each level 0 .. the random level gaining the new node at the key's rank; every old key keeps its node and value; the invariant holds |
| StorageEngines.StorageEngine.Erase | storageEngine.h:41-48 | the filter never changes; a key it does not report is not in the list and nothing changes; a key absent from the list (a false positive included) leaves the skip list unchanged; a present key's node leaves every level, with size - 1, the level not raised and the entries kept; either way the key is gone, every remaining key keeps its node and value, and the invariant holds |
| StorageEngines.StorageEngine.Search | storageEngine.h:50-58 | NULL when the filter does not report the key; under the invariant the result is the skip list's search for every key; no state changes |

## Left out

- File I/O (`read_file`, `write_file`), `print` and `display`: output only.
- The skip list's `mutex_`: the model is sequential.
- `random()`: `get_random_level` takes the outcomes of its successive `random() % 2 == 1` tests as a function `flips` from call number to bool.
- The Bloom filter's floating-point sizing (`computeBitsetSize`, `computeHashCount`, `log`, `ceil`): the bit count and the probe count are constructor parameters, with a bit count of at least 1.
- `BloomFilters.BloomFilter.constructor`: the bit count must be more than 31 below 2^64, so `(size + 31) >> 5` does not wrap; `Bitsets.WordCountWraps` shows what happens beyond that.
- Destructors and memory: erased skip-list nodes and evicted LRU nodes stay in their arenas and are never reached again. The model does not capture use after free or leaks, including the LRU destructor reading `cur->next` after `delete`.
- The LRU cache is not wired into the engine, because the engine shown has only `skip_list_` and `bloom_filter_`.
- `main.cpp`: a driver, not part of the core.
- `SkipList::erase` returns nothing. The model's `SkipLists.EraseEntry` returns whether it erased, but only so that the class method can update its fields.
- `head->prev` and `tail->next` are NULL in the source and never followed; in the arena they point back at the sentinel itself.
- `LruCaches.LRUCache.Insert`: requires `keyOf(value) == key`, since eviction finds the map entry through `value->key()`. A pointer stored under a different key would break map/list agreement in the source too.
- `SkipLists.SkipList.constructor`: `max_level` is a `nat`; a negative level would make the source allocate a header with a negative link count.
- The skip list's template key type is fixed to byte strings, which is what the engine's filter hashes. Values are an arbitrary type.
- Integer widths of counters (`size_`, `size`, `int level`) are unbounded in the model; overflow of a 2^31 entry count is not modelled.
