/**
 The movie record as the favorites store sees it, and the id-based
 predicates every other module is phrased in.
 */
module Movies {

  /** A catalog entry. The stored records are whole catalog results, which
      carry more keys; the model keeps only the ones the screens read. Only
      `id` is inspected by the store; the other fields, like the keys left
      out, are carried along unchanged, so dropping keys changes no
      operation. */
  datatype Movie = Movie(id: int, title: string, posterPath: string, voteAverage: real)

  /** Some entry of `list` carries the identifier `id`. */
  ghost predicate Listed(list: seq<Movie>, id: int) {
    exists i :: 0 <= i < |list| && list[i].id == id
  }

  /** No two entries of `list` share an identifier. */
  ghost predicate IdUnique(list: seq<Movie>) {
    forall i, j :: 0 <= i < j < |list| ==> list[i].id != list[j].id
  }

  /** The membership test the store runs before adding: a left-to-right
      scan that stops at the first entry with the same identifier. */
  function Contains(list: seq<Movie>, id: int): (b: bool)
    ensures b <==> Listed(list, id)
    decreases |list|
  {
    if |list| == 0 then false
    else if list[0].id == id then true
    else
      var rest := Contains(list[1..], id);
      assert rest <==> Listed(list, id) by {
        if Listed(list, id) {
          var i :| 0 <= i < |list| && list[i].id == id;
          assert list[1..][i - 1].id == id;
        }
        if Listed(list[1..], id) {
          var i :| 0 <= i < |list[1..]| && list[1..][i].id == id;
          assert list[i + 1].id == id;
        }
      }
      rest
  }

  /** Number of entries of `list` whose identifier is `id`. */
  ghost function CountId(list: seq<Movie>, id: int): nat
    decreases |list|
  {
    if |list| == 0 then 0
    else (if list[0].id == id then 1 else 0) + CountId(list[1..], id)
  }

  /** A list cannot hold more entries with `id` than it has entries. */
  lemma {:induction false} CountIdBound(list: seq<Movie>, id: int)
    ensures CountId(list, id) <= |list|
    ensures CountId(list, id) == 0 <==> !Listed(list, id)
    decreases |list|
  {
    if |list| > 0 {
      CountIdBound(list[1..], id);
      if Listed(list[1..], id) {
        var i :| 0 <= i < |list[1..]| && list[1..][i].id == id;
        assert list[i + 1].id == id;
      }
      if Listed(list, id) && list[0].id != id {
        var i :| 0 <= i < |list| && list[i].id == id;
        assert list[1..][i - 1].id == id;
      }
    }
  }

  /** In an id-unique list an identifier occurs at most once, and exactly
      once when it is listed. */
  lemma {:induction false} UniqueCount(list: seq<Movie>, id: int)
    requires IdUnique(list)
    ensures CountId(list, id) == (if Listed(list, id) then 1 else 0)
    decreases |list|
  {
    if |list| > 0 {
      assert IdUnique(list[1..]) by {
        forall i, j | 0 <= i < j < |list[1..]|
          ensures list[1..][i].id != list[1..][j].id
        {
          assert list[1..][i] == list[i + 1] && list[1..][j] == list[j + 1];
        }
      }
      UniqueCount(list[1..], id);
      CountIdBound(list, id);
      if list[0].id == id {
        assert !Listed(list[1..], id) by {
          forall k | 0 <= k < |list[1..]|
            ensures list[1..][k].id != id
          {
            assert list[1..][k] == list[k + 1];
          }
        }
      }
      if Listed(list, id) && list[0].id != id {
        var i :| 0 <= i < |list| && list[i].id == id;
        assert list[1..][i - 1].id == id;
      }
      if Listed(list[1..], id) {
        var i :| 0 <= i < |list[1..]| && list[1..][i].id == id;
        assert list[i + 1].id == id;
      }
    }
  }
}
