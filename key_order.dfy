/**
 * Keys of the engine are byte strings (the bloom filter hashes `key.c_str()`
 * over `key.size()` bytes), ordered as `std::string::operator<` orders them:
 * lexicographically on unsigned bytes, a proper prefix before its extensions.
 *
 * The module also holds the facts about strictly sorted key sequences that
 * the skip list's levels rely on: the insertion point (`Rank`), splicing an
 * element in or out at an index, and subsequences.
 */
module KeyOrder {

  import opened Words

  type Key = seq<byte>

  /** `a < b` for std::string. */
  predicate Less(a: Key, b: Key)
    decreases |a|
  {
    if |a| == 0 then |b| > 0
    else if |b| == 0 then false
    else if a[0] != b[0] then a[0] < b[0]
    else Less(a[1..], b[1..])
  }

  lemma {:induction false} LessIrreflexive(a: Key)
    ensures !Less(a, a)
  {
    if |a| > 0 {
      LessIrreflexive(a[1..]);
    }
  }

  lemma {:induction false} LessTransitive(a: Key, b: Key, c: Key)
    requires Less(a, b) && Less(b, c)
    ensures Less(a, c)
  {
    if |a| > 0 && |b| > 0 && |c| > 0 && a[0] == b[0] && b[0] == c[0] {
      LessTransitive(a[1..], b[1..], c[1..]);
    }
  }

  lemma {:induction false} LessTrichotomy(a: Key, b: Key)
    ensures Less(a, b) || a == b || Less(b, a)
  {
    if |a| > 0 && |b| > 0 && a[0] == b[0] {
      LessTrichotomy(a[1..], b[1..]);
      if a[1..] == b[1..] {
        assert a == [a[0]] + a[1..] && b == [b[0]] + b[1..];
      }
    }
  }

  lemma {:induction false} LessAsymmetric(a: Key, b: Key)
    requires Less(a, b)
    ensures !Less(b, a)
  {
    if Less(b, a) {
      LessTransitive(a, b, a);
      LessIrreflexive(a);
    }
  }

  /** Every earlier key is less than every later one (so no key repeats). */
  predicate Sorted(ks: seq<Key>)
  {
    forall i, j {:trigger Less(ks[i], ks[j])} :: 0 <= i < j < |ks| ==> Less(ks[i], ks[j])
  }

  /** The number of keys of `ks` less than `k`: for a sorted `ks`, the index
      just past the last key less than `k`, where a level's traversal stops. */
  function Rank(ks: seq<Key>, k: Key): (r: nat)
    ensures r <= |ks|
  {
    if |ks| == 0 then 0
    else (if Less(ks[0], k) then 1 else 0) + Rank(ks[1..], k)
  }

  /** No element appears twice: a chain of skip-list nodes, the LRU list. */
  predicate Distinct<T(==)>(c: seq<T>)
  {
    forall a, b :: 0 <= a < b < |c| ==> c[a] != c[b]
  }

  function InsertAt<T>(s: seq<T>, p: nat, x: T): (r: seq<T>)
    requires p <= |s|
    ensures |r| == |s| + 1 && r[p] == x
    ensures forall j :: 0 <= j < p ==> r[j] == s[j]
    ensures forall j :: p < j < |r| ==> r[j] == s[j - 1]
  {
    seq(|s| + 1, j requires 0 <= j <= |s| => if j < p then s[j] else if j == p then x else s[j - 1])
  }

  function RemoveAt<T>(s: seq<T>, p: nat): (r: seq<T>)
    requires p < |s|
    ensures |r| == |s| - 1
    ensures forall j :: 0 <= j < p ==> r[j] == s[j]
    ensures forall j :: p <= j < |r| ==> r[j] == s[j + 1]
  {
    seq(|s| - 1, j requires 0 <= j < |s| - 1 => if j < p then s[j] else s[j + 1])
  }

  /** In a sorted sequence the keys before the rank are exactly those less than k. */
  lemma {:induction false} RankSplit(ks: seq<Key>, k: Key, j: nat)
    requires Sorted(ks) && j < |ks|
    ensures j < Rank(ks, k) <==> Less(ks[j], k)
  {
    if j > 0 {
      SortedTail(ks);
      RankSplit(ks[1..], k, j - 1);
      assert ks[1..][j - 1] == ks[j];
      if Less(ks[j], k) {
        LessTransitive(ks[0], ks[j], k);
      }
    } else if !Less(ks[0], k) {
      RankNoneLess(ks, k);
    }
  }

  lemma {:induction false} RankNoneLess(ks: seq<Key>, k: Key)
    requires Sorted(ks) && |ks| > 0 && !Less(ks[0], k)
    ensures Rank(ks, k) == 0
  {
    if |ks| > 1 {
      SortedTail(ks);
      assert ks[1..][0] == ks[1];
      if Less(ks[1], k) {
        LessTransitive(ks[0], ks[1], k);
      }
      RankNoneLess(ks[1..], k);
    }
  }

  lemma SortedTail(ks: seq<Key>)
    requires Sorted(ks) && |ks| > 0
    ensures Sorted(ks[1..])
  {
    forall a, b | 0 <= a < b < |ks[1..]| ensures Less(ks[1..][a], ks[1..][b]) {
      assert ks[1..][a] == ks[a + 1] && ks[1..][b] == ks[b + 1];
    }
  }

  /** A traversal that stops after index p (the header for p == -1) with the
      next key not less than k has stopped at the rank. */
  lemma LastLessIsRank(ks: seq<Key>, k: Key, p: int)
    requires Sorted(ks) && -1 <= p < |ks|
    requires p == -1 || Less(ks[p], k)
    requires p + 1 == |ks| || !Less(ks[p + 1], k)
    ensures Rank(ks, k) == p + 1
  {
    if p >= 0 {
      RankSplit(ks, k, p);
    }
    if p + 1 < |ks| {
      RankSplit(ks, k, p + 1);
    }
  }

  /** A sorted sequence holds k exactly when k sits at its rank. */
  lemma MemberAtRank(ks: seq<Key>, k: Key)
    requires Sorted(ks)
    ensures k in ks <==> Rank(ks, k) < |ks| && ks[Rank(ks, k)] == k
  {
    var r := Rank(ks, k);
    if k in ks {
      var j :| 0 <= j < |ks| && ks[j] == k;
      RankSplit(ks, k, j);
      LessIrreflexive(k);
      if j > r {
        RankSplit(ks, k, r);
      }
    }
  }

  /** In a sorted sequence a key can only be held at its rank: no other
      position holds it. */
  lemma HeldAtRank(ks: seq<Key>, k: Key, j: nat)
    requires Sorted(ks) && j < |ks| && ks[j] == k
    ensures Rank(ks, k) == j
  {
    RankSplit(ks, k, j);
    LessIrreflexive(k);
    MemberAtRank(ks, k);
  }

  /** Splicing an absent key in at its rank keeps the sequence sorted. */
  lemma InsertAtRankSorted(ks: seq<Key>, k: Key)
    requires Sorted(ks) && k !in ks
    ensures Sorted(InsertAt(ks, Rank(ks, k), k))
  {
    var r := Rank(ks, k);
    var s := InsertAt(ks, r, k);
    forall i, j | 0 <= i < j < |s| ensures Less(s[i], s[j]) {
      if j == r {
        RankSplit(ks, k, i);
      } else if i == r {
        RankSplit(ks, k, j - 1);
        LessTrichotomy(s[j], k);
      } else if i < r < j {
        RankSplit(ks, k, i);
        RankSplit(ks, k, j - 1);
        LessTrichotomy(s[j], k);
        LessTransitive(s[i], k, s[j]);
      }
    }
  }

  /** Removing any element keeps a sequence sorted. */
  lemma RemoveAtSorted(ks: seq<Key>, p: nat)
    requires Sorted(ks) && p < |ks|
    ensures Sorted(RemoveAt(ks, p))
  {
    var s := RemoveAt(ks, p);
    forall i, j | 0 <= i < j < |s| ensures Less(s[i], s[j]) {
      var i' := if i < p then i else i + 1;
      var j' := if j < p then j else j + 1;
      assert s[i] == ks[i'] && s[j] == ks[j'];
    }
  }

  /** `a` is `b` with some elements left out, the order kept. */
  predicate IsSubsequence<T(==)>(a: seq<T>, b: seq<T>)
    decreases |b|
  {
    if |a| == 0 then true
    else if |b| == 0 then false
    else if a[0] == b[0] then IsSubsequence(a[1..], b[1..])
    else IsSubsequence(a, b[1..])
  }

  /** Between sorted sequences, containment of elements already is the
      subsequence relation: each skip-list level is a subsequence of the one
      below because it holds a subset of its keys. */
  lemma {:induction false} SortedSubsetIsSubsequence(a: seq<Key>, b: seq<Key>)
    requires Sorted(a) && Sorted(b)
    requires forall x :: x in a ==> x in b
    ensures IsSubsequence(a, b)
    decreases |b|
  {
    if |a| > 0 {
      assert a[0] in b;
      var b' := b[1..];
      assert b == [b[0]] + b';
      SortedTail(b);
      LessIrreflexive(b[0]);
      if a[0] == b[0] {
        var a' := a[1..];
        SortedTail(a);
        forall x | x in a' ensures x in b' {
          var i :| 0 <= i < |a'| && a'[i] == x;
          assert a[i + 1] == x && x in a;
          assert Less(b[0], x);
        }
        SortedSubsetIsSubsequence(a', b');
      } else {
        var m :| 0 <= m < |b| && b[m] == a[0];
        assert Less(b[0], a[0]) by { assert m != 0; }
        forall x | x in a ensures x in b' {
          var i :| 0 <= i < |a| && a[i] == x;
          if i > 0 {
            LessTransitive(b[0], a[0], x);
          }
        }
        SortedSubsetIsSubsequence(a, b');
      }
    }
  }
}
