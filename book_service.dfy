/** The book service: a cache-aside layer over the Books table. Its fields are the state the
    service reads and writes through its database context and its distributed cache. */
module BookServices {
  import opened Wrappers
  import opened ApiModels
  import opened BookTable
  import opened CacheAside

  /** Why saving a change to the table failed. */
  datatype StoreError =
    /** The UPDATE matched no row: the id is not in the table. */
    | ConcurrencyConflict

  class BookService {
    /** The Books table by primary key. */
    var store: map<int, Book>
    /** The table's identity sequence: the id the next inserted row receives. */
    var nextId: int
    /** The distributed cache; each value is the deserialized list stored under its key. */
    var cache: map<string, seq<Book>>

    ghost predicate Valid()
      reads this
    {
      && Sound(State())
      && (forall id :: id in store ==> id < nextId)
    }

    /** The service's state as a snapshot of the specification. */
    function State(): Snapshot
      reads this
    {
      Snapshot(store, cache)
    }

    /** A service over a table and a cache that agree, as they do when every earlier write
        went through this service. */
    constructor (rows: map<int, Book>, identity: int, entries: map<string, seq<Book>>)
      requires WellKeyed(rows)
      requires forall id :: id in rows ==> id < identity
      requires Coherent(Snapshot(rows, entries))
      ensures Valid()
      ensures store == rows && nextId == identity && cache == entries
    {
      store, nextId, cache := rows, identity, entries;
    }

    /** GetBooksAsync: on a hit the cached list, on a miss the table read in full and stored
        under "all_books". The table is unchanged. */
    method GetBooks() returns (books: seq<Book>)
      requires Valid()
      modifies this`cache
      ensures Valid()
      ensures IsListing(books, store)
      ensures AllBooksCacheKey in old(cache) ==> books == old(cache)[AllBooksCacheKey] && cache == old(cache)
      ensures AllBooksCacheKey !in old(cache) ==> cache == old(cache)[AllBooksCacheKey := books]
      ensures State() == AfterRead(old(State()), books)
    {
      if AllBooksCacheKey in cache {
        return cache[AllBooksCacheKey];
      }
      books := ToList(store);
      cache := cache[AllBooksCacheKey := books];
    }

    /** GetBookByIdAsync: the row with that id, or none. The cache is not consulted. */
    function GetBookById(id: int): (r: Option<Book>)
      reads this
      requires Valid()
      ensures r.Some? <==> id in store
      ensures r.Some? ==> r.value == store[id] && r.value.id == id
    {
      Find(store, id)
    }

    /** AddBookAsync: inserts the book under the next identity value, then drops
        "all_books". Returns the stored book with its assigned id. */
    method AddBook(book: Book) returns (added: Book)
      requires Valid()
      modifies this`store, this`nextId, this`cache
      ensures Valid()
      ensures added == book.(id := old(nextId))
      ensures added.id !in old(store) && added.id in store && store[added.id] == added
      ensures nextId == old(nextId) + 1
      ensures State() == AfterAdd(old(State()), book, added.id)
    {
      added := book.(id := nextId);
      store := store[added.id := added];
      nextId := nextId + 1;
      cache := Invalidate(cache);
    }

    /** UpdateBookAsync: marks the book modified and saves. Saving fails before the cache is
        touched when no row has `book.id`; otherwise the row is replaced and "all_books" is
        dropped after the save. */
    method UpdateBook(book: Book) returns (outcome: Outcome<StoreError>)
      requires Valid()
      modifies this`store, this`cache
      ensures Valid()
      ensures outcome.Pass? <==> book.id in old(store)
      ensures outcome.Fail? ==> store == old(store) && cache == old(cache)
      ensures State() == AfterUpdate(old(State()), book)
    {
      if book.id !in store {
        return Fail(ConcurrencyConflict);
      }
      store := store[book.id := book];
      cache := Invalidate(cache);
      return Pass;
    }

    /** DeleteBookAsync: looks the id up; only when a row is found is it removed and
        "all_books" dropped. */
    method DeleteBook(id: int)
      requires Valid()
      modifies this`store, this`cache
      ensures Valid()
      ensures id !in old(store) ==> store == old(store) && cache == old(cache)
      ensures State() == AfterDelete(old(State()), id)
    {
      var found := GetBookById(id);
      if found.Some? {
        store := store - {found.value.id};
        cache := Invalidate(cache);
      }
    }
  }

  /** A client of the service: two list reads with no write between them return the same
      list, and the second leaves the state as the first left it. */
  method ReadTwice(service: BookService) returns (first: seq<Book>, second: seq<Book>)
    requires service.Valid()
    modifies service`cache
    ensures service.Valid()
    ensures first == second
    ensures AllBooksCacheKey in service.cache
  {
    first := service.GetBooks();
    second := service.GetBooks();
  }

  /** A client of the service: deleting the same id twice leaves the state the first
      deletion left. */
  method DeleteTwice(service: BookService, id: int)
    requires service.Valid()
    modifies service`store, service`cache
    ensures service.Valid()
    ensures service.State() == AfterDelete(old(service.State()), id)
  {
    service.DeleteBook(id);
    ghost var once := service.State();
    service.DeleteBook(id);
    assert service.State() == once;
  }
}
