/** Order-preserving selection from a sequence, and concatenation of
    blocks. */
module Seqs {

  /** `a` is `b` with some elements left out and the rest kept in order. */
  predicate IsSubsequence<T(==)>(a: seq<T>, b: seq<T>)
    decreases |b|
  {
    if b == [] then a == []
    else IsSubsequence(a, b[1..]) || (a != [] && a[0] == b[0] && IsSubsequence(a[1..], b[1..]))
  }

  /** How many times `x` occurs in `s`. */
  function Count<T(==)>(s: seq<T>, x: T): nat {
    if s == [] then 0 else (if s[0] == x then 1 else 0) + Count(s[1..], x)
  }

  lemma {:induction false} CountConcat<T>(a: seq<T>, b: seq<T>, x: T)
    ensures Count(a + b, x) == Count(a, x) + Count(b, x)
  {
    if a == [] {
      assert a + b == b;
    } else {
      assert (a + b)[0] == a[0] && (a + b)[1..] == a[1..] + b;
      CountConcat(a[1..], b, x);
    }
  }

  lemma {:induction false} CountAbsent<T>(s: seq<T>, x: T)
    requires x !in s
    ensures Count(s, x) == 0
  {
    if s != [] {
      assert s[0] in s;
      assert x !in s[1..] by {
        forall k | 0 <= k < |s[1..]| ensures s[1..][k] != x {
          assert s[1..][k] == s[k + 1];
        }
      }
      CountAbsent(s[1..], x);
    }
  }

  lemma {:induction false} SubsequenceRefl<T>(s: seq<T>)
    ensures IsSubsequence(s, s)
    decreases |s|
  {
    if s != [] {
      SubsequenceRefl(s[1..]);
    }
  }

  lemma {:induction false} SubsequenceEmpty<T>(s: seq<T>)
    ensures IsSubsequence([], s)
    decreases |s|
  {
    if s != [] {
      SubsequenceEmpty(s[1..]);
    }
  }

  /** Leaving elements out twice is leaving elements out once. */
  lemma {:induction false} SubsequenceTransitive<T>(a: seq<T>, b: seq<T>, c: seq<T>)
    requires IsSubsequence(a, b) && IsSubsequence(b, c)
    ensures IsSubsequence(a, c)
    decreases |c|
  {
    if c != [] {
      if IsSubsequence(b, c[1..]) {
        SubsequenceTransitive(a, b, c[1..]);
      } else if IsSubsequence(a, b[1..]) {
        SubsequenceTransitive(a, b[1..], c[1..]);
      } else {
        SubsequenceTransitive(a[1..], b[1..], c[1..]);
      }
    }
  }

  lemma {:induction false} PrefixSubsequence<T>(s: seq<T>, j: nat)
    requires j <= |s|
    ensures IsSubsequence(s[..j], s)
    decreases |s|
  {
    if j == |s| {
      assert s[..j] == s;
      SubsequenceRefl(s);
    } else if j == 0 {
      SubsequenceEmpty(s);
    } else {
      assert s[..j][0] == s[0] && s[..j][1..] == s[1..][..j - 1];
      PrefixSubsequence(s[1..], j - 1);
    }
  }

  lemma {:induction false} SuffixSubsequence<T>(s: seq<T>, i: nat)
    requires i <= |s|
    ensures IsSubsequence(s[i..], s)
    decreases |s|
  {
    if i == 0 {
      assert s[i..] == s;
      SubsequenceRefl(s);
    } else {
      assert s[1..][i - 1..] == s[i..];
      SuffixSubsequence(s[1..], i - 1);
    }
  }

  /** A slice is a subsequence. */
  lemma SliceSubsequence<T>(s: seq<T>, i: nat, j: nat)
    requires i <= j <= |s|
    ensures IsSubsequence(s[i..j], s)
  {
    PrefixSubsequence(s, j);
    SuffixSubsequence(s[..j], i);
    assert s[..j][i..] == s[i..j];
    SubsequenceTransitive(s[i..j], s[..j], s);
  }

  /** No element occurs twice. */
  predicate Distinct<T(==)>(s: seq<T>) {
    forall i, j :: 0 <= i < j < |s| ==> s[i] != s[j]
  }

  /** A subsequence holds only elements of the sequence. */
  lemma {:induction false} SubsequenceMembers<T>(a: seq<T>, s: seq<T>, x: T)
    requires IsSubsequence(a, s) && x in a
    ensures x in s
    decreases |s|
  {
    if IsSubsequence(a, s[1..]) {
      SubsequenceMembers(a, s[1..], x);
    } else if x != a[0] {
      assert x in a[1..];
      SubsequenceMembers(a[1..], s[1..], x);
    }
  }

  /** In a sequence without repeats, a subsequence is fixed by its
      elements: two subsequences with the same elements are equal. */
  lemma {:induction false} SubsequenceUnique<T>(a: seq<T>, b: seq<T>, s: seq<T>)
    requires Distinct(s) && IsSubsequence(a, s) && IsSubsequence(b, s)
    requires forall x :: x in a <==> x in b
    ensures a == b
    decreases |s|
  {
    if s != [] {
      var t := s[1..];
      assert Distinct(t) by {
        forall i, j | 0 <= i < j < |t| ensures t[i] != t[j] {
          assert t[i] == s[i + 1] && t[j] == s[j + 1];
        }
      }
      assert s[0] !in t by {
        forall k | 0 <= k < |t| ensures t[k] != s[0] {
          assert t[k] == s[k + 1];
        }
      }
      if s[0] in a {
        if IsSubsequence(a, t) {
          SubsequenceMembers(a, t, s[0]);
        }
        if IsSubsequence(b, t) {
          SubsequenceMembers(b, t, s[0]);
        }
        assert a[0] == s[0] && IsSubsequence(a[1..], t);
        assert b[0] == s[0] && IsSubsequence(b[1..], t);
        forall x ensures x in a[1..] <==> x in b[1..] {
          assert a == [a[0]] + a[1..] && b == [b[0]] + b[1..];
          if x in a[1..] {
            SubsequenceMembers(a[1..], t, x);
            assert x in b && x != b[0];
          }
          if x in b[1..] {
            SubsequenceMembers(b[1..], t, x);
            assert x in a && x != a[0];
          }
        }
        SubsequenceUnique(a[1..], b[1..], t);
        assert a == [a[0]] + a[1..] && b == [b[0]] + b[1..];
      } else {
        if a != [] {
          assert a[0] in a;
        }
        if b != [] {
          assert b[0] in b;
        }
        SubsequenceUnique(a, b, t);
      }
    }
  }

  /** A subsequence without `x` leaves out at least every `x`. */
  lemma {:induction false} SubsequenceAvoids<T>(a: seq<T>, s: seq<T>, x: T)
    requires IsSubsequence(a, s) && x !in a
    ensures |a| + Count(s, x) <= |s|
    decreases |s|
  {
    if s != [] {
      if IsSubsequence(a, s[1..]) {
        SubsequenceAvoids(a, s[1..], x);
      } else {
        assert a[0] in a;
        assert x !in a[1..] by {
          forall k | 0 <= k < |a[1..]| ensures a[1..][k] != x {
            assert a[1..][k] == a[k + 1];
          }
        }
        SubsequenceAvoids(a[1..], s[1..], x);
      }
    }
  }

  /** The blocks one after the other. */
  function Flatten<T>(blocks: seq<seq<T>>): seq<T> {
    if blocks == [] then [] else blocks[0] + Flatten(blocks[1..])
  }

  /** Where block `k` starts in `Flatten(blocks)`. */
  function Start<T>(blocks: seq<seq<T>>, k: nat): nat
    requires k <= |blocks|
  {
    if k == 0 then 0 else |blocks[0]| + Start(blocks[1..], k - 1)
  }

  /** Block `k` sits in the flattening at its start, whole and unchanged. */
  lemma {:induction false} FlattenBlock<T>(blocks: seq<seq<T>>, k: nat)
    requires k < |blocks|
    ensures Start(blocks, k) + |blocks[k]| <= |Flatten(blocks)|
    ensures Flatten(blocks)[Start(blocks, k)..Start(blocks, k) + |blocks[k]|] == blocks[k]
  {
    var head, rest := blocks[0], Flatten(blocks[1..]);
    if k == 0 {
      assert (head + rest)[..|head|] == head;
    } else {
      assert blocks[k] == blocks[1..][k - 1];
      FlattenBlock(blocks[1..], k - 1);
      var o := Start(blocks[1..], k - 1);
      assert (head + rest)[|head| + o..|head| + o + |blocks[k]|] == rest[o..o + |blocks[k]|];
    }
  }

  /** Element `j` of block `k` sits at the block's start plus `j`. */
  lemma FlattenAt<T>(blocks: seq<seq<T>>, k: nat, j: nat)
    requires k < |blocks| && j < |blocks[k]|
    ensures Start(blocks, k) + j < |Flatten(blocks)|
    ensures Flatten(blocks)[Start(blocks, k) + j] == blocks[k][j]
  {
    FlattenBlock(blocks, k);
    var o := Start(blocks, k);
    assert Flatten(blocks)[o..o + |blocks[k]|][j] == blocks[k][j];
  }

  /** Block `k + 1` starts where block `k` ends. */
  lemma {:induction false} StartStep<T>(blocks: seq<seq<T>>, k: nat)
    requires k < |blocks|
    ensures Start(blocks, k + 1) == Start(blocks, k) + |blocks[k]|
  {
    if k > 0 {
      assert blocks[1..][k - 1] == blocks[k];
      StartStep(blocks[1..], k - 1);
    }
  }

  /** The flattening ends where a block after the last one would start. */
  lemma {:induction false} FlattenLength<T>(blocks: seq<seq<T>>)
    ensures |Flatten(blocks)| == Start(blocks, |blocks|)
  {
    if blocks != [] {
      FlattenLength(blocks[1..]);
    }
  }
}
