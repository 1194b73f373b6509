/**
 * The Bitset of bloomfilter.h and bloomfilter.cpp: `size` bits packed into
 * a fixed vector of uint32_t words, bit `index` living in word `index >> 5`
 * at position `index % 32`. The vector never changes length after the
 * constructor, so it is a `const` array whose words `Set` updates in place.
 */
module Bitsets {

  import opened Words

  /** 2^64, one past the largest size_t. */
  const SizeBase: nat := 0x1_0000_0000_0000_0000

  /** `(size + 31) >> 5` evaluated on a size_t: the sum wraps modulo 2^64. */
  function WordCount(size: nat): nat
    requires size < SizeBase
  {
    ((size + 31) % SizeBase) / 32
  }

  /** Unless the sum wraps, the word count is the number of 32-bit words
      needed to hold `size` bits: ceil(size / 32), and every index below
      `size` falls in a word that exists. */
  lemma WordCountIsCeiling(size: nat)
    requires size + 31 < SizeBase
    ensures 32 * WordCount(size) >= size
    ensures 32 * (WordCount(size) - 1) < size
    ensures forall index: nat :: index < size ==> index / 32 < WordCount(size)
  {
  }

  /** Within 31 of 2^64 the sum wraps and no word is allocated at all. */
  lemma WordCountWraps(size: nat)
    requires size < SizeBase <= size + 31
    ensures WordCount(size) == 0
  {
  }

  /** `1 << (index % 32)`. The source shifts the int 1, so for bit 31 it
      forms INT_MIN, which the word operations convert back to 2^31. */
  function Mask(b: nat): (r: u32)
    requires b < 32
    ensures r == Pow2(b)
  {
    Pow2Below(b, 32);
    Pow2Width();
    Pow2(b)
  }

  /** Or-ing the mask in sets bit b and keeps the others. */
  lemma OrMask(w: u32, b: nat)
    requires b < 32
    ensures forall j :: 0 <= j < 32 ==> Bit(Or(w, Mask(b)), j) == (Bit(w, j) || j == b)
  {
    forall j | 0 <= j < 32
      ensures Bit(Or(w, Mask(b)), j) == (Bit(w, j) || j == b)
    {
      BitOfOr(w, Mask(b), 32, j);
      BitOfPow2(b, j);
    }
  }

  /** And-ing with the inverted mask clears bit b and keeps the others. */
  lemma AndNotMask(w: u32, b: nat)
    requires b < 32
    ensures forall j :: 0 <= j < 32 ==> Bit(And(w, Not(Mask(b))), j) == (Bit(w, j) && j != b)
  {
    forall j | 0 <= j < 32
      ensures Bit(And(w, Not(Mask(b))), j) == (Bit(w, j) && j != b)
    {
      BitOfAnd(w, Not(Mask(b)), 32, j);
      BitOfNot(Mask(b), 32, j);
      BitOfPow2(b, j);
    }
  }

  /** The bit `w & (1 << b)` tests for is bit b. */
  lemma AndMask(w: u32, b: nat)
    requires b < 32
    ensures (And(w, Mask(b)) != 0) == Bit(w, b)
  {
    AndPow2(w, b, 32);
  }

  /** The 32 bits of one word, least significant first. */
  function WordBits(w: u32): (bs: seq<bool>)
    ensures |bs| == 32
  {
    seq(32, j requires 0 <= j < 32 => Bit(w, j))
  }

  /** The bits a word sequence packs, word 0 first. */
  function WordsBits(ws: seq<u32>): (bs: seq<bool>)
    ensures |bs| == 32 * |ws|
    decreases |ws|
  {
    if |ws| == 0 then [] else WordBits(ws[0]) + WordsBits(ws[1..])
  }

  /** Bit i of the sequence is bit i % 32 of word i / 32. */
  lemma {:induction false} WordsBitsAt(ws: seq<u32>, i: nat)
    requires i < 32 * |ws|
    ensures WordsBits(ws)[i] == Bit(ws[i / 32], i % 32)
    decreases |ws|
  {
    if i >= 32 {
      WordsBitsAt(ws[1..], i - 32);
      assert WordsBits(ws)[i] == WordsBits(ws[1..])[i - 32];
      assert (i - 32) / 32 == i / 32 - 1 && (i - 32) % 32 == i % 32;
    }
  }

  /** Replacing the word that holds bit `index` by one that differs from it
      in that bit alone changes that one bit of the sequence. */
  lemma UpdateWordBits(ws: seq<u32>, index: nat, val: bool, w: u32)
    requires index < 32 * |ws|
    requires Bit(w, index % 32) == val
    requires forall j :: 0 <= j < 32 && j != index % 32 ==> Bit(w, j) == Bit(ws[index / 32], j)
    ensures WordsBits(ws[index / 32 := w]) == WordsBits(ws)[index := val]
  {
    var after, before := WordsBits(ws[index / 32 := w]), WordsBits(ws)[index := val];
    forall i | 0 <= i < |after|
      ensures after[i] == before[i]
    {
      WordsBitsAt(ws[index / 32 := w], i);
      WordsBitsAt(ws, i);
      if i / 32 == index / 32 && i % 32 == index % 32 {
        SameSlot(i, index);
      }
    }
  }

  lemma SameSlot(i: nat, j: nat)
    requires i / 32 == j / 32 && i % 32 == j % 32
    ensures i == j
  {
  }

  class Bitset {

    const vec: array<u32>

    /** The bits the vector holds, in order. */
    function Bits(): (bs: seq<bool>)
      reads this, vec
      ensures |bs| == 32 * vec.Length
    {
      WordsBits(vec[..])
    }

    /** `vec_((size + 31) >> 5)`: the words are value-initialised, so every
        bit starts false. */
    constructor (size: nat)
      requires size < SizeBase
      ensures vec.Length == WordCount(size) && fresh(vec)
      ensures forall i :: 0 <= i < |Bits()| ==> !Bits()[i]
    {
      vec := new u32[WordCount(size)](_ => 0);
      new;
      forall i | 0 <= i < |Bits()|
        ensures !Bits()[i]
      {
        WordsBitsAt(vec[..], i);
        BitOfZero(i % 32);
      }
    }

    /** Bitset::set: or the mask into the word for `val`, and it with the
        inverted mask otherwise. */
    method Set(index: nat, val: bool)
      requires index < 32 * vec.Length
      modifies vec
      ensures Bits() == old(Bits())[index := val]
    {
      var w := vec[index / 32];
      var b := index % 32;
      var updated;
      if val {
        updated := Or(w, Mask(b));
        OrMask(w, b);
      } else {
        updated := And(w, Not(Mask(b)));
        AndNotMask(w, b);
      }
      UpdateWordBits(vec[..], index, val, updated);
      vec[index / 32] := updated;
      assert vec[..] == old(vec[..])[index / 32 := updated];
    }

    /** Bitset::get: whether `word & (1 << (index % 32))` is non-zero. */
    function Get(index: nat): (b: bool)
      requires index < 32 * vec.Length
      reads this, vec
      ensures b == Bits()[index]
    {
      AndMask(vec[index / 32], index % 32);
      WordsBitsAt(vec[..], index);
      And(vec[index / 32], Mask(index % 32)) != 0
    }
  }
}
