/** What the cache-aside specification promises to a single sequential caller: reads are
    transparent, writes are visible to the next read, and the invariant survives any run
    of requests that all go through the service. */
module CacheAsideProperties {
  import opened Wrappers
  import opened ApiModels
  import opened BookTable
  import opened CacheAside

  /** Cache transparency: whether "all_books" hits or misses, a coherent service answers
      with exactly the books in the table, one entry per row. */
  lemma ReadIsTransparent(s: Snapshot, rows: seq<Book>)
    requires Sound(s)
    requires IsListing(rows, s.store)
    ensures BookSet(ReadResult(s, rows)) == s.store.Values
    ensures |ReadResult(s, rows)| == |s.store|
  {
    ListingIsTable(ReadResult(s, rows), s.store);
  }

  /** Two reads with no write between them: the first fills "all_books", the second hits it
      and returns the very same list, and the second changes nothing. */
  lemma ConsecutiveReads(s: Snapshot, first: seq<Book>, second: seq<Book>)
    requires IsListing(first, s.store)
    requires IsListing(second, s.store)
    ensures AllBooksCacheKey in AfterRead(s, first).cache
    ensures ReadResult(AfterRead(s, first), second) == ReadResult(s, first)
    ensures AfterRead(AfterRead(s, first), second) == AfterRead(s, first)
  {
  }

  /** Deleting the same id twice has the effect of deleting it once. */
  lemma DeleteIdempotent(s: Snapshot, id: int)
    ensures AfterDelete(AfterDelete(s, id), id) == AfterDelete(s, id)
  {
  }

  /** Read after add: the next GetBookById finds the new book, and the next GetBooks lists
      it among exactly the table's books. */
  lemma ReadAfterAdd(s: Snapshot, book: Book, id: int, rows: seq<Book>)
    requires Sound(s)
    requires id !in s.store
    requires IsListing(rows, AfterAdd(s, book, id).store)
    ensures Find(AfterAdd(s, book, id).store, id) == Some(book.(id := id))
    ensures book.(id := id) in ReadResult(AfterAdd(s, book, id), rows)
    ensures |ReadResult(AfterAdd(s, book, id), rows)| == |s.store| + 1
  {
    var r := AfterAdd(s, book, id);
    ListingIsTable(rows, r.store);
    assert r.store.Keys == s.store.Keys + {id};
  }

  /** Read after update: the next reads see the new fields and no copy of the old row. */
  lemma ReadAfterUpdate(s: Snapshot, book: Book, rows: seq<Book>)
    requires Sound(s)
    requires book.id in s.store
    requires IsListing(rows, AfterUpdate(s, book).store)
    ensures Find(AfterUpdate(s, book).store, book.id) == Some(book)
    ensures book in ReadResult(AfterUpdate(s, book), rows)
    ensures forall b :: b in ReadResult(AfterUpdate(s, book), rows) && b.id == book.id ==> b == book
  {
  }

  /** Read after delete: the id is gone from both reads. */
  lemma ReadAfterDelete(s: Snapshot, id: int, rows: seq<Book>)
    requires Sound(s)
    requires IsListing(rows, AfterDelete(s, id).store)
    ensures Find(AfterDelete(s, id).store, id) == None
    ensures forall b :: b in ReadResult(AfterDelete(s, id), rows) ==> b.id != id
  {
  }

  /** One call into the service. `GetBooks` carries the list the table would return if it
      were read in full at that moment; `AddBook` carries the id the table assigns. */
  datatype Request =
    | GetBooks(rows: seq<Book>)
    | GetBookById(id: int)
    | AddBook(book: Book, newId: int)
    | UpdateBook(book: Book)
    | DeleteBook(id: int)

  /** The table's side of a request can happen in `s`: the list really is the table's
      contents, and the assigned id really is fresh. */
  ghost predicate Admissible(s: Snapshot, q: Request)
  {
    match q
    case GetBooks(rows) => IsListing(rows, s.store)
    case AddBook(_, newId) => newId !in s.store
    case _ => true
  }

  /** The snapshot after serving one request. */
  function Apply(s: Snapshot, q: Request): Snapshot
    requires Admissible(s, q)
  {
    match q
    case GetBooks(rows) => AfterRead(s, rows)
    case GetBookById(_) => s
    case AddBook(book, newId) => AfterAdd(s, book, newId)
    case UpdateBook(book) => AfterUpdate(s, book)
    case DeleteBook(id) => AfterDelete(s, id)
  }

  /** Every request of the run is admissible where it is served. */
  ghost predicate AdmissibleRun(s: Snapshot, qs: seq<Request>)
    decreases |qs|
  {
    qs == [] || (Admissible(s, qs[0]) && AdmissibleRun(Apply(s, qs[0]), qs[1..]))
  }

  /** The snapshot after serving `qs` in order. */
  ghost function Run(s: Snapshot, qs: seq<Request>): Snapshot
    requires AdmissibleRun(s, qs)
    decreases |qs|
  {
    if qs == [] then s else Run(Apply(s, qs[0]), qs[1..])
  }

  /** Each request keeps the table well keyed and the cache coherent. */
  lemma ApplyKeepsSound(s: Snapshot, q: Request)
    requires Sound(s)
    requires Admissible(s, q)
    ensures Sound(Apply(s, q))
  {
  }

  /** The coherence invariant: as long as every write goes through the service, after any
      run of requests a present "all_books" entry lists exactly the table's rows. */
  lemma {:induction false} RunKeepsSound(s: Snapshot, qs: seq<Request>)
    requires Sound(s)
    requires AdmissibleRun(s, qs)
    ensures Sound(Run(s, qs))
    decreases |qs|
  {
    if qs != [] {
      ApplyKeepsSound(s, qs[0]);
      RunKeepsSound(Apply(s, qs[0]), qs[1..]);
    }
  }

  /** Hence any list read after any run of requests is exactly the current table. */
  lemma ReadAfterRunIsCurrent(s: Snapshot, qs: seq<Request>, rows: seq<Book>)
    requires Sound(s)
    requires AdmissibleRun(s, qs)
    requires IsListing(rows, Run(s, qs).store)
    ensures BookSet(ReadResult(Run(s, qs), rows)) == Run(s, qs).store.Values
  {
    RunKeepsSound(s, qs);
    ReadIsTransparent(Run(s, qs), rows);
  }

  /** Three books, a read that warms the cache, an update of the second book, and a second
      read: the second read returns the first and third books and the new second one, and
      not the old second one. */
  lemma WarmUpdateRead(a: Book, b: Book, c: Book, b': Book, first: seq<Book>, second: seq<Book>)
    requires a.id == 1 && b.id == 2 && c.id == 3 && b'.id == 2 && b' != b
    requires IsListing(first, map[1 := a, 2 := b, 3 := c])
    requires IsListing(second, map[1 := a, 2 := b', 3 := c])
    ensures
      var s1 := AfterRead(Snapshot(map[1 := a, 2 := b, 3 := c], map[]), first);
      var s2 := AfterUpdate(s1, b');
      && AllBooksCacheKey in s1.cache
      && AllBooksCacheKey !in s2.cache
      && IsListing(second, s2.store)
      && a in ReadResult(s2, second) && b' in ReadResult(s2, second) && c in ReadResult(s2, second)
      && b !in ReadResult(s2, second)
  {
    var s1 := AfterRead(Snapshot(map[1 := a, 2 := b, 3 := c], map[]), first);
    var s2 := AfterUpdate(s1, b');
    assert s2.store == map[1 := a, 2 := b', 3 := c];
    assert ReadResult(s2, second) == second;
    assert a == s2.store[1] && b' == s2.store[2] && c == s2.store[3];
  }
}
