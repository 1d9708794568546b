/** Order and duplicate facts about sequences, shared by the favourites list and the catalog view. */
module Sequences {

  /** `sub` can be obtained from `s` by deleting elements, keeping the rest in their order. */
  ghost predicate IsSubsequence<T>(sub: seq<T>, s: seq<T>)
    decreases |s|
  {
    if sub == [] then true
    else if s == [] then false
    else if sub[0] == s[0] then IsSubsequence(sub[1..], s[1..])
    else IsSubsequence(sub, s[1..])
  }

  /**
   * `idx` places the elements of `sub` in `s`: the k-th element of `sub` sits at position
   * `idx[k]` of `s`, and the positions strictly increase.
   */
  ghost predicate IsEmbedding<T>(idx: seq<int>, sub: seq<T>, s: seq<T>)
  {
    && |idx| == |sub|
    && (forall k :: 0 <= k < |idx| ==> 0 <= idx[k] < |s| && s[idx[k]] == sub[k])
    && (forall i, j :: 0 <= i < j < |idx| ==> idx[i] < idx[j])
  }

  /** Every position moved by `d`. */
  function Shift(idx: seq<int>, d: int): (r: seq<int>)
    ensures |r| == |idx| && forall k :: 0 <= k < |idx| ==> r[k] == idx[k] + d
  {
    seq(|idx|, k requires 0 <= k < |idx| => idx[k] + d)
  }

  /** A subsequence comes with increasing positions where its elements sit. */
  lemma {:induction false} SubsequenceHasEmbedding<T>(sub: seq<T>, s: seq<T>) returns (idx: seq<int>)
    requires IsSubsequence(sub, s)
    ensures IsEmbedding(idx, sub, s)
    decreases |s|
  {
    if sub == [] {
      idx := [];
    } else if sub[0] == s[0] {
      var rest := SubsequenceHasEmbedding(sub[1..], s[1..]);
      idx := [0] + Shift(rest, 1);
      forall k | 0 <= k < |idx| ensures 0 <= idx[k] < |s| && s[idx[k]] == sub[k] {
        if k > 0 {
          assert idx[k] == rest[k - 1] + 1 && s[1..][rest[k - 1]] == sub[1..][k - 1];
        }
      }
    } else {
      var rest := SubsequenceHasEmbedding(sub, s[1..]);
      idx := Shift(rest, 1);
      forall k | 0 <= k < |idx| ensures 0 <= idx[k] < |s| && s[idx[k]] == sub[k] {
        assert s[1..][rest[k]] == sub[k];
      }
    }
  }

  /** Increasing positions where the elements of `sub` sit make `sub` a subsequence. */
  lemma {:induction false} EmbeddingIsSubsequence<T>(idx: seq<int>, sub: seq<T>, s: seq<T>)
    requires IsEmbedding(idx, sub, s)
    ensures IsSubsequence(sub, s)
    decreases |s|
  {
    if sub != [] {
      assert 0 <= idx[0] < |s|;
      if sub[0] == s[0] {
        var rest := Shift(idx[1..], -1);
        forall k | 0 <= k < |rest| ensures 0 <= rest[k] < |s[1..]| && s[1..][rest[k]] == sub[1..][k] {
          assert idx[0] < idx[k + 1];
        }
        forall i, j | 0 <= i < j < |rest| ensures rest[i] < rest[j] {
          assert idx[i + 1] < idx[j + 1];
        }
        EmbeddingIsSubsequence(rest, sub[1..], s[1..]);
      } else {
        var rest := Shift(idx, -1);
        forall k | 0 <= k < |rest| ensures 0 <= rest[k] < |s[1..]| && s[1..][rest[k]] == sub[k] {
          if k > 0 {
            assert idx[0] < idx[k];
          } else {
            assert idx[0] != 0;
          }
        }
        EmbeddingIsSubsequence(rest, sub, s[1..]);
      }
    }
  }

  /** The recursive definition agrees with the positional one, in both directions. */
  lemma SubsequenceIffEmbedding<T>(sub: seq<T>, s: seq<T>)
    ensures IsSubsequence(sub, s) <==> exists idx :: IsEmbedding(idx, sub, s)
  {
    if IsSubsequence(sub, s) {
      var idx := SubsequenceHasEmbedding(sub, s);
    }
    if exists idx :: IsEmbedding(idx, sub, s) {
      var idx :| IsEmbedding(idx, sub, s);
      EmbeddingIsSubsequence(idx, sub, s);
    }
  }

  /** Every sequence is a subsequence of itself. */
  lemma {:induction false} SubsequenceReflexive<T>(s: seq<T>)
    ensures IsSubsequence(s, s)
  {
    if s != [] {
      SubsequenceReflexive(s[1..]);
    }
  }

  /** No value occurs twice in `s`. */
  predicate NoDuplicates<T(==)>(s: seq<T>)
  {
    s == [] || (s[0] !in s[1..] && NoDuplicates(s[1..]))
  }

  /** The recursive definition agrees with the pairwise one: distinct positions hold distinct values. */
  lemma {:induction false} NoDuplicatesPairwise<T>(s: seq<T>)
    ensures NoDuplicates(s) <==> forall i, j :: 0 <= i < j < |s| ==> s[i] != s[j]
  {
    if s != [] {
      NoDuplicatesPairwise(s[1..]);
      if NoDuplicates(s) {
        forall i, j | 0 <= i < j < |s| ensures s[i] != s[j] {
          if i == 0 {
            assert s[j] == s[1..][j - 1];
          } else {
            assert s[i] == s[1..][i - 1] && s[j] == s[1..][j - 1];
          }
        }
      }
      if forall i, j :: 0 <= i < j < |s| ==> s[i] != s[j] {
        forall i, j | 0 <= i < j < |s[1..]| ensures s[1..][i] != s[1..][j] {
          assert s[1..][i] == s[i + 1] && s[1..][j] == s[j + 1];
        }
        forall k | 0 <= k < |s[1..]| ensures s[1..][k] != s[0] {
          assert s[1..][k] == s[k + 1];
        }
      }
    }
  }

  /** A sequence without duplicates holds every value at most once, as a multiset. */
  lemma {:induction false} NoDuplicatesCounts<T>(s: seq<T>)
    requires NoDuplicates(s)
    ensures forall x :: multiset(s)[x] <= 1
  {
    if s != [] {
      NoDuplicatesCounts(s[1..]);
      assert s == [s[0]] + s[1..];
      assert multiset(s)[s[0]] == 1 + multiset(s[1..])[s[0]];
    }
  }

  /** Appending a value that is not present keeps a sequence free of duplicates. */
  lemma {:induction false} NoDuplicatesAppend<T>(s: seq<T>, x: T)
    requires NoDuplicates(s) && x !in s
    ensures NoDuplicates(s + [x])
  {
    if s != [] {
      assert (s + [x])[1..] == s[1..] + [x];
      NoDuplicatesAppend(s[1..], x);
    }
  }
}
