/**
 The favorites provider: the in-memory list together with the device
 storage it writes through to. Each operation is a pure step from one
 store to the next; whether a storage call succeeds is a parameter,
 since the outcome of the device I/O is outside the model.
 */
module FavoritesStore {
  import opened Movies
  import opened Storage
  import opened FavoritesList
  import opened Subsequences

  /** The provider's state: the list the screens read, and the disk. */
  datatype Store = Store(favorites: seq<Movie>, disk: Disk)

  /** What a mutation did with the disk. A failed write is logged and
      otherwise swallowed. */
  datatype Persist = NoWrite | Saved | SaveFailed

  datatype Outcome = Outcome(store: Store, persist: Persist)

  /** The provider as mounted, before hydration: an empty list. */
  function Initial(disk: Disk): (s: Store)
    ensures |s.favorites| == 0
    ensures s.disk == disk
  {
    Store([], disk)
  }

  /** The disk holds exactly the in-memory list under the favorites key. */
  ghost predicate Synced(s: Store) {
    StoredFavorites(s.disk) == Some(s.favorites)
  }

  /** Every list the provider holds or has stored is free of identifier
      clashes. */
  ghost predicate Consistent(s: Store) {
    && IdUnique(s.favorites)
    && (StoredFavorites(s.disk).Some? ==> IdUnique(StoredFavorites(s.disk).value))
  }

  /** Installs `list` in memory first, then attempts to write all of it
      under the favorites key. */
  function Commit(s: Store, list: seq<Movie>, writeSucceeds: bool): (r: Outcome)
    ensures r.store.favorites == list
    ensures writeSucceeds ==> r.persist == Saved && Synced(r.store)
    ensures !writeSucceeds ==> r.persist == SaveFailed && r.store.disk == s.disk
    ensures SameElsewhere(s.disk, r.store.disk, FavoritesKey)
  {
    var disk := Put(s.disk, FavoritesKey, Encode(list), writeSucceeds);
    Outcome(Store(list, disk), if writeSucceeds then Saved else SaveFailed)
  }

  /** `addToFavorites`: a movie whose identifier is already listed is
      ignored without touching the disk; otherwise it is appended and the
      new list is written through. A failed write does not roll back. */
  function AddToFavorites(s: Store, movie: Movie, writeSucceeds: bool): (r: Outcome)
    ensures Listed(s.favorites, movie.id) ==> r.store == s && r.persist == NoWrite
    ensures !Listed(s.favorites, movie.id) ==>
              && |r.store.favorites| == |s.favorites| + 1
              && r.store.favorites[..|s.favorites|] == s.favorites
              && r.store.favorites[|s.favorites|] == movie
              && r.persist == (if writeSucceeds then Saved else SaveFailed)
    ensures Listed(r.store.favorites, movie.id)
    ensures writeSucceeds && r.persist != NoWrite ==> Synced(r.store)
    ensures !writeSucceeds ==> r.store.disk == s.disk
    ensures SameElsewhere(s.disk, r.store.disk, FavoritesKey)
  {
    if Contains(s.favorites, movie.id) then Outcome(s, NoWrite)
    else Commit(s, Add(s.favorites, movie), writeSucceeds)
  }

  /** `removeFromFavorites`: drops every entry with the identifier and
      always writes the result through, even when nothing was removed. */
  function RemoveFromFavorites(s: Store, id: int, writeSucceeds: bool): (r: Outcome)
    ensures !Listed(r.store.favorites, id)
    ensures forall m :: m in s.favorites && m.id != id ==> m in r.store.favorites
    ensures forall m :: m in r.store.favorites ==> m in s.favorites
    ensures IsSubseq(r.store.favorites, s.favorites)
    ensures |r.store.favorites| == |s.favorites| - CountId(s.favorites, id)
    ensures !Listed(s.favorites, id) ==> r.store.favorites == s.favorites
    ensures r.persist == (if writeSucceeds then Saved else SaveFailed)
    ensures writeSucceeds ==> Synced(r.store)
    ensures !writeSucceeds ==> r.store.disk == s.disk
    ensures SameElsewhere(s.disk, r.store.disk, FavoritesKey)
  {
    var list := Remove(s.favorites, id);
    assert !Listed(s.favorites, id) ==> list == s.favorites by {
      if !Listed(s.favorites, id) {
        RemoveAbsent(s.favorites, id);
      }
    }
    SubseqContained(list, s.favorites);
    Commit(s, list, writeSucceeds)
  }

  /** `loadFavorites`: replaces the in-memory list by the stored one when
      the read succeeds and a non-empty value under the favorites key
      parses. A missing key, an empty value, a parse failure or a read
      failure leave the list as it was. The disk is only read. */
  function LoadFavorites(s: Store, readSucceeds: bool): (r: Store)
    ensures r.disk == s.disk
    ensures readSucceeds && StoredFavorites(s.disk).Some? ==> Synced(r)
    ensures !readSucceeds || StoredFavorites(s.disk).None? ==> r == s
  {
    if !readSucceeds then s
    else
      match Get(s.disk, FavoritesKey)
      case None => s
      case Some(blob) =>
        if !Truthy(blob) then s
        else
          match Decode(blob)
          case None => s
          case Some(list) => Store(list, s.disk)
  }

  /** A successful write followed by a fresh hydration reproduces the
      list: what the provider saved is what a new session loads. */
  lemma SaveThenLoad(s: Store)
    requires Synced(s)
    ensures LoadFavorites(Initial(s.disk), true).favorites == s.favorites
  {
  }

  /** Hydrating with nothing stored leaves the initial empty list. */
  lemma LoadNothingStored(disk: Disk, readSucceeds: bool)
    requires FavoritesKey !in disk
    ensures LoadFavorites(Initial(disk), readSucceeds).favorites == []
  {
  }

  /** Hydrating a provider that already mirrors its disk changes nothing,
      so loading twice is the same as loading once. */
  lemma LoadIdempotent(s: Store, readSucceeds: bool)
    ensures LoadFavorites(LoadFavorites(s, readSucceeds), readSucceeds) == LoadFavorites(s, readSucceeds)
  {
  }

  /** One call on the provider. Screens can add and remove; only the mount
      effect loads. A `LoadCall` is allowed anywhere in a session, which
      over-approximates the source and so makes the session lemmas
      stronger. */
  datatype Call =
    | AddCall(movie: Movie, writeSucceeds: bool)
    | RemoveCall(id: int, writeSucceeds: bool)
    | LoadCall(readSucceeds: bool)

  /** The provider after one call. */
  function Step(s: Store, call: Call): (r: Store)
    ensures call.LoadCall? ==> r.disk == s.disk
    ensures !call.LoadCall? ==> SameElsewhere(s.disk, r.disk, FavoritesKey)
  {
    match call
    case AddCall(movie, ok) => AddToFavorites(s, movie, ok).store
    case RemoveCall(id, ok) => RemoveFromFavorites(s, id, ok).store
    case LoadCall(ok) => LoadFavorites(s, ok)
  }

  /** The provider after a sequence of calls, made one after another. */
  function Run(s: Store, calls: seq<Call>): (r: Store)
    ensures SameElsewhere(s.disk, r.disk, FavoritesKey)
    decreases |calls|
  {
    if |calls| == 0 then s else Run(Step(s, calls[0]), calls[1..])
  }

  /** Every write the calls attempt succeeds. */
  predicate WritesSucceed(calls: seq<Call>) {
    forall i :: 0 <= i < |calls| && !calls[i].LoadCall? ==> calls[i].writeSucceeds
  }

  /** Each call keeps the provider free of identifier clashes, whatever
      the storage does. */
  lemma StepConsistent(s: Store, call: Call)
    requires Consistent(s)
    ensures Consistent(Step(s, call))
  {
    match call
    case AddCall(movie, ok) =>
      AddKeepsUnique(s.favorites, movie);
    case RemoveCall(id, ok) =>
      RemoveKeepsUnique(s.favorites, id);
    case LoadCall(ok) =>
  }

  /** Any session that starts consistent stays consistent: no sequence of
      adds, removes and loads produces two favorites with one id. */
  lemma {:induction false} RunConsistent(s: Store, calls: seq<Call>)
    requires Consistent(s)
    ensures Consistent(Run(s, calls))
    decreases |calls|
  {
    if |calls| > 0 {
      StepConsistent(s, calls[0]);
      RunConsistent(Step(s, calls[0]), calls[1..]);
    }
  }

  /** A freshly mounted provider on an unused disk is consistent. */
  lemma InitialConsistent()
    ensures Consistent(Initial(map[]))
  {
  }

  /** Each call keeps the disk mirroring memory when its write succeeds. */
  lemma StepSynced(s: Store, call: Call)
    requires Synced(s)
    requires !call.LoadCall? ==> call.writeSucceeds
    ensures Synced(Step(s, call))
  {
  }

  /** When every write of a session succeeds, the disk still holds the
      in-memory list at its end. */
  lemma {:induction false} RunSynced(s: Store, calls: seq<Call>)
    requires Synced(s)
    requires WritesSucceed(calls)
    ensures Synced(Run(s, calls))
    decreases |calls|
  {
    if |calls| > 0 {
      StepSynced(s, calls[0]);
      assert WritesSucceed(calls[1..]) by {
        forall i | 0 <= i < |calls[1..]| && !calls[1..][i].LoadCall?
          ensures calls[1..][i].writeSucceeds
        {
          assert calls[1..][i] == calls[i + 1];
        }
      }
      RunSynced(Step(s, calls[0]), calls[1..]);
    }
  }

  /** A typical session: add A, add B, add A again, remove A. */
  lemma Scenario(disk: Disk, a: Movie, b: Movie)
    requires a.id == 1 && b.id == 2
    ensures var s1 := AddToFavorites(Initial(disk), a, true).store;
            var s2 := AddToFavorites(s1, b, true).store;
            var s3 := AddToFavorites(s2, a, true);
            var s4 := RemoveFromFavorites(s3.store, 1, true).store;
            && s2.favorites == [a, b]
            && s3.store == s2 && s3.persist == NoWrite
            && s4.favorites == [b]
            && StoredFavorites(s4.disk) == Some([b])
  {
    var s1 := AddToFavorites(Initial(disk), a, true).store;
    assert s1.favorites == [a];
    var s2 := AddToFavorites(s1, b, true).store;
    assert s2.favorites == [a, b];
    assert s2.favorites[0].id == 1;
    assert Remove([a, b], 1) == Remove([b], 1);
    assert Remove([b], 1) == [b] + Remove([], 1);
  }
}
