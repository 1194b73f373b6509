/**
 * The hand-written MurmurHash3_x86_32 of murmurhash3.h: 4-byte blocks read
 * little-endian, each scrambled and mixed into the state; up to three tail
 * bytes; then the fmix32 finaliser. All arithmetic is on uint32_t (`u32`),
 * with the constants c1 = 0xcc9e2d51, c2 = 0x1b873593, r1 = 15, r2 = 13,
 * m = 5, n = 0xe6546b64 and the rotations written out as the source writes
 * them, `(k << r) | (k >> (32 - r))`.
 *
 * This variant xors the RESIDUAL length into the state before finalising
 * (`len` after the block loop, the input length mod 4), where the published
 * algorithm xors the full length truncated to 32 bits. `Murmur3` is the hash
 * as written, the one the bloom filter uses; `Murmur3Reference` is the
 * published algorithm.
 */
module MurmurHash3 {

  import opened Words

  const C1: u32 := 0xcc9e2d51
  const C2: u32 := 0x1b873593
  const R1: nat := 15
  const R2: nat := 13
  const M: u32 := 5
  const N: u32 := 0xe6546b64

  /** The first four bytes read as one little-endian word (the x86 result of
      the source's `*(uint32_t*)data`). */
  function Block(data: seq<byte>): u32
    requires |data| >= 4
  {
    data[0] as int + 0x100 * data[1] as int + 0x1_0000 * data[2] as int + 0x100_0000 * data[3] as int
  }

  /** k *= c1; k = rotl(k, r1); k *= c2 */
  function ScrambleK(k: u32): u32
  {
    Mul(Rotl(Mul(k, C1), R1), C2)
  }

  /** h ^= k; h = rotl(h, r2); h = h * m + n */
  function Mix(h: u32, k: u32): u32
  {
    Add(Mul(Rotl(Xor(h, k), R2), M), N)
  }

  /** One block of the loop: its word scrambled, then mixed into the state. */
  function MixBlock(h: u32, block: u32): u32
  {
    Mix(h, ScrambleK(block))
  }

  /** The state after every whole 4-byte block of `data`, in order. */
  function Blocks(h: u32, data: seq<byte>): u32
    decreases |data|
  {
    if |data| < 4 then h else Blocks(MixBlock(h, Block(data)), data[4..])
  }

  /** The last `|data| % 4` bytes, which the block loop leaves over. */
  function Residue(data: seq<byte>): (rest: seq<byte>)
    ensures |rest| == |data| % 4 && rest == data[|data| - |data| % 4..]
  {
    data[|data| - |data| % 4..]
  }

  /** The switch's fall-through: byte 2 shifted to bits 16-23, byte 1 to
      bits 8-15, byte 0 at bits 0-7, xored into a word that starts at 0. */
  function TailWord(rest: seq<byte>): u32
    requires 1 <= |rest| <= 3
  {
    var k2 := if |rest| == 3 then Xor(0, Shl(rest[2], 16)) else 0;
    var k1 := if |rest| >= 2 then Xor(k2, Shl(rest[1], 8)) else k2;
    Xor(k1, rest[0])
  }

  /** Mixes 1-3 remaining bytes into the state; no bytes leave it alone. */
  function Tail(h: u32, rest: seq<byte>): u32
    requires |rest| < 4
  {
    if |rest| == 0 then h else Xor(h, ScrambleK(TailWord(rest)))
  }

  /** The fmix32 finaliser. */
  function Fmix(h: u32): u32
  {
    var h1 := Xor(h, Shr(h, 16));
    var h2 := Mul(h1, 0x85ebca6b);
    var h3 := Xor(h2, Shr(h2, 13));
    var h4 := Mul(h3, 0xc2b2ae35);
    Xor(h4, Shr(h4, 16))
  }

  /** h ^= (uint32_t)len, then the finaliser. */
  function Finalise(h: u32, lengthWord: u32): u32
  {
    Fmix(Xor(h, lengthWord))
  }

  /** The state once the block loop and the tail switch are done. */
  function State(data: seq<byte>, seed: u32): u32
  {
    Tail(Blocks(seed, data), Residue(data))
  }

  /** murmurhash3_x86_32(data, |data|, seed) as murmurhash3.h computes it:
      the residual length, |data| mod 4, goes into the finaliser. */
  function Murmur3(data: seq<byte>, seed: u32): u32
  {
    Finalise(State(data, seed), |data| % 4)
  }

  /** The published MurmurHash3_x86_32: the finaliser takes (uint32_t)len. */
  function Murmur3Reference(data: seq<byte>, seed: u32): u32
  {
    Finalise(State(data, seed), |data| % Base)
  }

  /** murmurhash3_x86_32 of murmurhash3.h: the block loop, the tail switch
      on the `len` bytes it leaves at `data`, then `h ^= (uint32_t)len` and
      the finaliser. */
  method Murmur3X86_32(key: seq<byte>, seed: u32) returns (h: u32)
    ensures h == Murmur3(key, seed)
  {
    var data, len;
    h, data, len := BlockLoop(key, seed);
    h := MixTail(h, key[data..]);
    var lengthWord: u32 := len % Base;
    assert lengthWord == len by {
      LengthWords(len);
    }
    h := Xor(h, lengthWord);
    ghost var h1 := h;
    h := Xor(h, Shr(h, 16));
    h := Mul(h, 0x85ebca6b);
    h := Xor(h, Shr(h, 13));
    h := Mul(h, 0xc2b2ae35);
    h := Xor(h, Shr(h, 16));
    assert h == Fmix(h1);
  }

  /** The while loop of murmurhash3.h; `data` is an offset standing for the
      advancing byte pointer, `len` the bytes still to read. */
  method BlockLoop(key: seq<byte>, seed: u32) returns (h: u32, data: nat, len: nat)
    ensures len == |key| % 4 && len < 4 && data + len == |key|
    ensures key[data..] == Residue(key)
    ensures h == Blocks(seed, key)
  {
    h := seed;
    data := 0;
    len := |key|;
    ghost var blocks := 0;
    while len >= 4
      invariant data + len == |key| && data == 4 * blocks
      invariant Blocks(h, key[data..]) == Blocks(seed, key)
    {
      var k := Block(key[data..]);
      ghost var h0 := h;
      k := Mul(k, C1);
      k := Rotl(k, R1);
      k := Mul(k, C2);
      h := Xor(h, k);
      h := Rotl(h, R2);
      h := Add(Mul(h, M), N);
      BlocksStep(h0, key, data);
      data := data + 4;
      len := len - 4;
      blocks := blocks + 1;
    }
    WholeBlocks(blocks, len);
  }

  lemma WholeBlocks(blocks: nat, len: nat)
    requires len < 4
    ensures (4 * blocks + len) % 4 == len
  {
  }

  /** One turn of the block loop at offset `data`. */
  lemma BlocksStep(h: u32, key: seq<byte>, data: nat)
    requires data + 4 <= |key|
    ensures Blocks(MixBlock(h, Block(key[data..])), key[data + 4..]) == Blocks(h, key[data..])
  {
    assert key[data..][4..] == key[data + 4..];
  }

  /** The tail switch of murmurhash3.h on the `len` bytes left at `data`:
      its cases 3 and 2 fall through into case 1, which mixes the word in. */
  method MixTail(h0: u32, rest: seq<byte>) returns (h: u32)
    requires |rest| < 4
    ensures h == Tail(h0, rest)
  {
    h := h0;
    var len := |rest|;
    var k: u32 := 0;
    if len == 3 {
      k := Xor(k, Shl(rest[2], 16));
    }
    if len >= 2 {
      k := Xor(k, Shl(rest[1], 8));
    }
    if len >= 1 {
      k := Xor(k, rest[0]);
      k := Mul(k, C1);
      k := Rotl(k, R1);
      k := Mul(k, C2);
      h := Xor(h, k);
    }
  }

  /** The words the block loop reads, in order: one per whole block. */
  function BlockWords(data: seq<byte>): (ws: seq<u32>)
    ensures |ws| == |data| / 4
    decreases |data|
  {
    if |data| < 4 then [] else [Block(data)] + BlockWords(data[4..])
  }

  /** Mixing a sequence of words into the state, first word first. */
  function MixAll(h: u32, ws: seq<u32>): u32
    decreases |ws|
  {
    if |ws| == 0 then h else MixAll(MixBlock(h, ws[0]), ws[1..])
  }

  /** The block loop mixes exactly the |data| / 4 whole words, in order. */
  lemma {:induction false} BlocksMixesWords(h: u32, data: seq<byte>)
    ensures Blocks(h, data) == MixAll(h, BlockWords(data))
    decreases |data|
  {
    if |data| >= 4 {
      var ws := BlockWords(data);
      assert ws[0] == Block(data) && ws[1..] == BlockWords(data[4..]);
      BlocksMixesWords(MixBlock(h, Block(data)), data[4..]);
    }
  }

  /** Splitting the input at a block boundary splits the block loop. */
  lemma BlocksAppend(h: u32, block: seq<byte>, data: seq<byte>)
    requires |block| == 4
    ensures Blocks(h, block + data) == Blocks(MixBlock(h, Block(block)), data)
  {
    assert (block + data)[4..] == data;
    assert Block(block + data) == Block(block);
  }

  /** The two hashes agree on inputs shorter than one block, where the
      residual length is the whole length. */
  lemma AgreesBelowOneBlock(data: seq<byte>, seed: u32)
    requires |data| < 4
    ensures Murmur3(data, seed) == Murmur3Reference(data, seed)
  {
    LengthWords(|data|);
  }

  /** From one block up to 2^32 - 1 bytes the residual length differs from
      (uint32_t)len, so the finaliser receives a different word from the
      one the published algorithm gives it. */
  lemma FinaliserInputDeparts(data: seq<byte>, seed: u32)
    requires 4 <= |data| < Base
    ensures Xor(State(data, seed), |data| % 4) != Xor(State(data, seed), |data| % Base)
  {
    var s, r, l := State(data, seed), |data| % 4, |data| % Base;
    LengthWords(|data|);
    Pow2Width();
    if Xor(s, r) == Xor(s, l) {
      XorCancels(s, r, l, 32);
    }
  }

  /** The two length words: equal below one block, different from there up
      to 2^32 - 1. */
  lemma LengthWords(n: nat)
    ensures n < 4 ==> n % 4 == n % Base == n
    ensures 4 <= n < Base ==> n % 4 != n % Base
  {
  }
}
