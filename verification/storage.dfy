/**
 The device's persistent key-value store, reduced to what the favorites
 store needs: a map from string keys to stored blobs, the fixed key the
 favorites live under, and an encoding of a movie list as a blob.
 */
module Storage {
  import opened Movies

  datatype Option<T> = None | Some(value: T)

  /** The single key the favorites list is persisted under. */
  const FavoritesKey: string := "@favorites"

  /** A stored value. `Encoded(list)` is the text the store writes for
      `list`. `Raw(text)` stands only for the empty string or for text that
      `JSON.parse` rejects; JSON text of any other value is not a `Blob`. */
  datatype Blob = Encoded(movies: seq<Movie>) | Raw(text: string)

  type Disk = map<string, Blob>

  /** Serialises a whole favorites list into one blob. */
  function Encode(list: seq<Movie>): (b: Blob)
    ensures Decode(b) == Some(list)
    ensures Truthy(b)
  {
    Encoded(list)
  }

  /** Parses a blob back into a movie list; `None` is a parse failure. */
  function Decode(b: Blob): (r: Option<seq<Movie>>)
    ensures r.Some? <==> b.Encoded?
    ensures r.Some? ==> b == Encoded(r.value) && Truthy(b)
  {
    match b
    case Encoded(list) => Some(list)
    case Raw(_) => None
  }

  /** Whether the stored string counts as present: only the empty string
      is falsy, and an encoded list is never empty text. */
  predicate Truthy(b: Blob)
    ensures Truthy(b) <==> b != Raw("")
  {
    match b
    case Encoded(_) => true
    case Raw(text) => text != ""
  }

  /** Reading a key: `None` when nothing is stored under it. */
  function Get(disk: Disk, key: string): (r: Option<Blob>)
    ensures r.Some? <==> key in disk
    ensures r.Some? ==> disk[key] == r.value
  {
    if key in disk then Some(disk[key]) else None
  }

  /** A write attempt: it replaces the value under `key` when it succeeds
      and leaves the disk as it was when it fails. */
  function Put(disk: Disk, key: string, b: Blob, succeeds: bool): (r: Disk)
    ensures succeeds ==> Get(r, key) == Some(b)
    ensures !succeeds ==> r == disk
    ensures SameElsewhere(disk, r, key)
  {
    if succeeds then disk[key := b] else disk
  }

  /** `d1` and `d2` agree on every key other than `key`. */
  ghost predicate SameElsewhere(d1: Disk, d2: Disk, key: string) {
    forall k :: k != key ==> Get(d1, k) == Get(d2, k)
  }

  /** The favorites list the disk currently holds, if it parses. */
  function StoredFavorites(disk: Disk): (r: Option<seq<Movie>>)
    ensures r.Some? ==> FavoritesKey in disk && disk[FavoritesKey] == Encode(r.value)
    ensures r.None? ==> FavoritesKey !in disk || Decode(disk[FavoritesKey]).None?
  {
    match Get(disk, FavoritesKey)
    case None => None
    case Some(b) => Decode(b)
  }
}
