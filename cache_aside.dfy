/** The cache-aside behaviour of the book service as a specification over snapshots of its
    two pieces of state: the Books table and the distributed cache. Each operation of the
    service is a function from the snapshot before to the snapshot after. */
module CacheAside {
  import opened Wrappers
  import opened ApiModels
  import opened BookTable

  /** The one cache key the service uses; it holds the whole list of books. */
  const AllBooksCacheKey: string := "all_books"

  /** The table by primary key, and the cache by key (each value the deserialized list). */
  datatype Snapshot = Snapshot(store: map<int, Book>, cache: map<string, seq<Book>>)

  /** The central invariant: a present "all_books" entry lists exactly the table's rows. An
      absent entry is always coherent; a present one holds the table's books, one per row. */
  ghost predicate Coherent(s: Snapshot)
    ensures AllBooksCacheKey !in s.cache ==> Coherent(s)
    ensures Coherent(s) && WellKeyed(s.store) && AllBooksCacheKey in s.cache ==>
              BookSet(s.cache[AllBooksCacheKey]) == s.store.Values
              && |s.cache[AllBooksCacheKey]| == |s.store|
  {
    if AllBooksCacheKey in s.cache && WellKeyed(s.store) && IsListing(s.cache[AllBooksCacheKey], s.store) then
      ListingIsTable(s.cache[AllBooksCacheKey], s.store);
      true
    else
      AllBooksCacheKey in s.cache ==> IsListing(s.cache[AllBooksCacheKey], s.store)
  }

  /** What every operation needs of the table. */
  ghost predicate Sound(s: Snapshot)
  {
    WellKeyed(s.store) && Coherent(s)
  }

  /** Removing "all_books"; every other cache entry stays as it is. */
  function Invalidate(cache: map<string, seq<Book>>): (r: map<string, seq<Book>>)
    ensures AllBooksCacheKey !in r
    ensures forall k :: k != AllBooksCacheKey ==> (k in r <==> k in cache)
    ensures forall k :: k in r ==> r[k] == cache[k]
  {
    cache - {AllBooksCacheKey}
  }

  /** GetBooksAsync's answer: the cached list on a hit, otherwise `rows`, the list the table
      returns when read in full. */
  function ReadResult(s: Snapshot, rows: seq<Book>): (r: seq<Book>)
    requires IsListing(rows, s.store)
    ensures AllBooksCacheKey in s.cache ==> r == s.cache[AllBooksCacheKey]
    ensures Coherent(s) ==> IsListing(r, s.store)
  {
    if AllBooksCacheKey in s.cache then s.cache[AllBooksCacheKey] else rows
  }

  /** GetBooksAsync's effect: a hit changes nothing, a miss stores the list read from the
      table under "all_books". The table is never written. */
  function AfterRead(s: Snapshot, rows: seq<Book>): (r: Snapshot)
    requires IsListing(rows, s.store)
    ensures r.store == s.store
    ensures AllBooksCacheKey in r.cache && r.cache[AllBooksCacheKey] == ReadResult(s, rows)
    ensures forall k :: k != AllBooksCacheKey ==> (k in r.cache <==> k in s.cache)
    ensures forall k :: k != AllBooksCacheKey && k in r.cache ==> r.cache[k] == s.cache[k]
    ensures Coherent(s) ==> Coherent(r)
  {
    if AllBooksCacheKey in s.cache then s
    else s.(cache := s.cache[AllBooksCacheKey := rows])
  }

  /** AddBookAsync with `id` the fresh key the table assigns: the book is stored under that
      id, no other row changes, and "all_books" is dropped. */
  function AfterAdd(s: Snapshot, book: Book, id: int): (r: Snapshot)
    requires id !in s.store
    ensures r.store.Keys == s.store.Keys + {id}
    ensures r.store[id] == book.(id := id)
    ensures forall k :: k in s.store ==> r.store[k] == s.store[k]
    ensures r.cache == Invalidate(s.cache)
    ensures WellKeyed(s.store) ==> Sound(r)
  {
    Snapshot(s.store[id := book.(id := id)], Invalidate(s.cache))
  }

  /** UpdateBookAsync: when a row with `book.id` exists, it is replaced by `book`, the
      other rows are kept and "all_books" is dropped; otherwise the save fails and nothing
      changes. */
  function AfterUpdate(s: Snapshot, book: Book): (r: Snapshot)
    ensures r.store.Keys == s.store.Keys
    ensures book.id in s.store ==> r.store[book.id] == book && r.cache == Invalidate(s.cache)
    ensures forall k :: k in s.store && k != book.id ==> r.store[k] == s.store[k]
    ensures book.id !in s.store ==> r == s
    ensures Sound(s) ==> Sound(r)
  {
    if book.id in s.store then Snapshot(s.store[book.id := book], Invalidate(s.cache))
    else s
  }

  /** DeleteBookAsync: when a row with `id` exists, exactly that row goes and "all_books" is
      dropped; otherwise nothing changes. */
  function AfterDelete(s: Snapshot, id: int): (r: Snapshot)
    ensures r.store.Keys == s.store.Keys - {id}
    ensures forall k :: k in r.store ==> r.store[k] == s.store[k]
    ensures id in s.store ==> r.cache == Invalidate(s.cache)
    ensures id !in s.store ==> r == s
    ensures Sound(s) ==> Sound(r)
  {
    if id in s.store then Snapshot(s.store - {id}, Invalidate(s.cache))
    else s
  }
}
