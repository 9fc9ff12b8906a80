/**
 Order-preserving sub-lists. Removing favorites must keep the surviving
 entries in their original relative order; this module says what that
 means and proves the facts the removal lemmas rely on.
 */
module Subsequences {
  import opened Movies

  /** `a` can be obtained from `b` by deleting entries, without reordering.
      Matching the first entry greedily is complete for this relation. */
  ghost predicate IsSubseq<T>(a: seq<T>, b: seq<T>)
    decreases |b|
  {
    if |a| == 0 then true
    else if |b| == 0 then false
    else if a[0] == b[0] then IsSubseq(a[1..], b[1..])
    else IsSubseq(a, b[1..])
  }

  /** A subsequence is no longer than the list it is taken from, and every
      entry of it is an entry of that list. */
  lemma {:induction false} SubseqContained<T>(a: seq<T>, b: seq<T>)
    requires IsSubseq(a, b)
    ensures |a| <= |b|
    ensures forall x :: x in a ==> x in b
    decreases |b|
  {
    if |a| > 0 {
      if a[0] == b[0] {
        SubseqContained(a[1..], b[1..]);
        forall x | x in a
          ensures x in b
        {
          if x != a[0] {
            assert x in a[1..];
          }
        }
      } else {
        SubseqContained(a, b[1..]);
      }
    }
  }

  /** Deleting entries cannot create an identifier clash. */
  lemma {:induction false} SubseqKeepsUnique(a: seq<Movie>, b: seq<Movie>)
    requires IsSubseq(a, b)
    requires IdUnique(b)
    ensures IdUnique(a)
    decreases |b|
  {
    if |a| > 0 {
      var tail := b[1..];
      assert IdUnique(tail) by {
        forall i, j | 0 <= i < j < |tail|
          ensures tail[i].id != tail[j].id
        {
          assert tail[i] == b[i + 1] && tail[j] == b[j + 1];
        }
      }
      if a[0] == b[0] {
        SubseqKeepsUnique(a[1..], tail);
        SubseqContained(a[1..], tail);
        forall i, j | 0 <= i < j < |a|
          ensures a[i].id != a[j].id
        {
          if i == 0 {
            assert a[j] in tail by {
              assert a[j] == a[1..][j - 1];
            }
            var k :| 0 <= k < |tail| && tail[k] == a[j];
            assert b[k + 1] == a[j];
          } else {
            assert a[i] == a[1..][i - 1] && a[j] == a[1..][j - 1];
          }
        }
      } else {
        SubseqKeepsUnique(a, tail);
      }
    }
  }

  /** A subsequence that avoids identifier `id` altogether has to leave out
      every entry of `b` that carries it. */
  lemma {:induction false} SubseqAvoidingBound(a: seq<Movie>, b: seq<Movie>, id: int)
    requires IsSubseq(a, b)
    requires forall i :: 0 <= i < |a| ==> a[i].id != id
    ensures |a| <= |b| - CountId(b, id)
    decreases |b|
  {
    if |a| == 0 {
      CountIdBound(b, id);
    } else {
      if a[0] == b[0] {
        forall i | 0 <= i < |a[1..]|
          ensures a[1..][i].id != id
        {
          assert a[1..][i] == a[i + 1];
        }
        SubseqAvoidingBound(a[1..], b[1..], id);
      } else {
        SubseqAvoidingBound(a, b[1..], id);
      }
    }
  }
}
