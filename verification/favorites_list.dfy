/**
 The list logic of the favorites store, apart from persistence: the
 duplicate-checked append behind `addToFavorites` and the filter behind
 `removeFromFavorites`, with the invariants they keep.
 */
module FavoritesList {
  import opened Movies
  import opened Subsequences

  /** Appends `movie` unless an entry with its identifier is already
      present, in which case the list is returned as it is. */
  function Add(list: seq<Movie>, movie: Movie): (r: seq<Movie>)
    ensures Listed(list, movie.id) ==> r == list
    ensures !Listed(list, movie.id) ==> |r| == |list| + 1 && r[..|list|] == list && r[|list|] == movie
    ensures Listed(r, movie.id)
    ensures forall id :: Listed(r, id) <==> Listed(list, id) || id == movie.id
  {
    if Contains(list, movie.id) then list
    else
      var r := list + [movie];
      assert r[|list|].id == movie.id;
      forall id | Listed(r, id)
        ensures Listed(list, id) || id == movie.id
      {
        var i :| 0 <= i < |r| && r[i].id == id;
        if i < |list| {
          assert list[i].id == id;
        }
      }
      forall id | Listed(list, id)
        ensures Listed(r, id)
      {
        var i :| 0 <= i < |list| && list[i].id == id;
        assert r[i].id == id;
      }
      r
  }

  /** `r` is `list` with the entries carrying `id` filtered out: an
      order-preserving subsequence that avoids `id` and drops nothing
      else. These are the first three clauses of Remove's contract. */
  ghost predicate Filters(r: seq<Movie>, list: seq<Movie>, id: int) {
    && IsSubseq(r, list)
    && (forall i :: 0 <= i < |r| ==> r[i].id != id)
    && |r| == |list| - CountId(list, id)
  }

  /** Keeps, in order, exactly the entries whose identifier differs from
      `id`. */
  function Remove(list: seq<Movie>, id: int): (r: seq<Movie>)
    ensures IsSubseq(r, list)
    ensures forall i :: 0 <= i < |r| ==> r[i].id != id
    ensures |r| == |list| - CountId(list, id)
    ensures forall m :: m in list && m.id != id ==> m in r
    decreases |list|
  {
    if |list| == 0 then []
    else
      var rest := Remove(list[1..], id);
      if list[0].id != id then
        var r := [list[0]] + rest;
        assert r[1..] == rest;
        forall m | m in list && m.id != id
          ensures m in r
        {
          if m != list[0] {
            assert m in list[1..];
          }
        }
        r
      else
        forall m | m in list && m.id != id
          ensures m in rest
        {
          assert m in list[1..];
        }
        rest
  }

  /** Adding the same movie twice has the effect of adding it once. */
  lemma AddIdempotent(list: seq<Movie>, movie: Movie)
    ensures Add(Add(list, movie), movie) == Add(list, movie)
  {
  }

  /** Add keeps the list free of identifier clashes. */
  lemma AddKeepsUnique(list: seq<Movie>, movie: Movie)
    requires IdUnique(list)
    ensures IdUnique(Add(list, movie))
  {
  }

  /** Remove keeps the list free of identifier clashes. */
  lemma RemoveKeepsUnique(list: seq<Movie>, id: int)
    requires IdUnique(list)
    ensures IdUnique(Remove(list, id))
  {
    SubseqKeepsUnique(Remove(list, id), list);
  }

  /** Removing an identifier that is not listed changes nothing. */
  lemma {:induction false} RemoveAbsent(list: seq<Movie>, id: int)
    requires !Listed(list, id)
    ensures Remove(list, id) == list
    decreases |list|
  {
    if |list| > 0 {
      assert list[0].id != id;
      assert !Listed(list[1..], id) by {
        forall k | 0 <= k < |list[1..]|
          ensures list[1..][k].id != id
        {
          assert list[1..][k] == list[k + 1];
        }
      }
      RemoveAbsent(list[1..], id);
      assert [list[0]] + list[1..] == list;
    }
  }

  /** Removing the same identifier twice has the effect of removing it
      once. */
  lemma RemoveIdempotent(list: seq<Movie>, id: int)
    ensures Remove(Remove(list, id), id) == Remove(list, id)
  {
  }

  /** In an id-unique list that holds `id`, Remove drops exactly one
      entry. */
  lemma RemoveDropsOne(list: seq<Movie>, id: int)
    requires IdUnique(list)
    requires Listed(list, id)
    ensures |Remove(list, id)| == |list| - 1
  {
    UniqueCount(list, id);
  }

  /** Filtering distributes over concatenation. */
  lemma {:induction false} RemoveConcat(a: seq<Movie>, b: seq<Movie>, id: int)
    ensures Remove(a + b, id) == Remove(a, id) + Remove(b, id)
    decreases |a|
  {
    if |a| == 0 {
      assert a + b == b;
    } else {
      assert (a + b)[0] == a[0];
      assert (a + b)[1..] == a[1..] + b;
      RemoveConcat(a[1..], b, id);
    }
  }

  /** Adding a movie whose identifier is fresh and then removing that
      identifier gives back the original list. */
  lemma AddThenRemove(list: seq<Movie>, movie: Movie)
    requires !Listed(list, movie.id)
    ensures Remove(Add(list, movie), movie.id) == list
  {
    assert Add(list, movie) == list + [movie];
    RemoveConcat(list, [movie], movie.id);
    RemoveAbsent(list, movie.id);
    assert Remove([movie], movie.id) == [];
  }

  /** `Filters` determines its first argument, so the contract of Remove
      pins down its result: any filtering of `list` by `id` is the list
      Remove returns. */
  lemma {:induction false} RemoveUnique(list: seq<Movie>, id: int, r: seq<Movie>)
    requires Filters(r, list, id)
    ensures r == Remove(list, id)
    decreases |list|
  {
    if |list| > 0 {
      var tail := list[1..];
      CountIdBound(tail, id);
      if list[0].id == id {
        if |r| > 0 {
          assert r[0] != list[0];
        }
        RemoveUnique(tail, id, r);
      } else {
        assert |r| > 0;
        if r[0] == list[0] {
          forall i | 0 <= i < |r[1..]|
            ensures r[1..][i].id != id
          {
            assert r[1..][i] == r[i + 1];
          }
          RemoveUnique(tail, id, r[1..]);
          assert r == [r[0]] + r[1..];
        } else {
          SubseqAvoidingBound(r, tail, id);
          assert false;
        }
      }
    }
  }
}
