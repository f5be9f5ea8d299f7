# Book service: a cache-aside model

This project models the API's `BookService`. The service stands between the Books table, which
it reaches through an Entity Framework context on PostgreSQL, and a Redis distributed cache.
It caches under a single key, `"all_books"`, and that key holds the whole list of books:

- `GetBooksAsync` returns the cached list when the key is present. Otherwise it reads the whole
  table, stores the list under the key, and returns it.
- `GetBookByIdAsync` reads the table by primary key and never consults the cache.
- `AddBookAsync`, `UpdateBookAsync` and `DeleteBookAsync` write to the table and then remove
  `"all_books"`. Delete does nothing when the id is absent.

The model also covers the validation rules that the web front end's `Book` model declares
through data annotations. The API's own `Book` record has no annotations, so the service
accepts any book.

Layout:

- `wrappers.dfy`: `Option` (a C# null) and `Outcome` (a call that may throw).
- `api_models.dfy`: the API's `Book` record.
- `book_table.dfy`: the Books table as a map from primary key to row. It covers lookup by key
  and the full read. Reading the whole table returns every row exactly once, in an order the
  database chooses. `ToList` models that order as a free choice of the next row.
- `cache_aside.dfy`: the specification. Each service operation is a function from a
  `Snapshot` (table and cache) before the call to the snapshot after it. It also defines the
  coherence invariant: when `"all_books"` is present, it lists exactly the table's rows.
- `cache_aside_properties.dfy`: what this specification guarantees to one sequential caller.
  Reads are transparent, writes are visible to the next read, and the invariant holds after
  any run of requests that all go through the service.
- `book_service.dfy`: the `BookService` class. Its fields are the table, the table's identity
  sequence and the cache. Each method updates those fields, keeps `Valid()`, and states its new
  state through the matching specification function.
- `web_book.dfy`: the web `Book` model and its validity predicate.

The service keeps no per-book cache keys and does not sort the list. It lets cache errors
propagate, and it removes `"all_books"` on Update as well as on Add and Delete.

## Model

| member | source | states |
|---|---|---|
| BookTable.Find | AspireAppTest.ApiService/Services/BookService.cs:36 | A lookup by primary key finds a row exactly when the id is in the table; the row found carries that id |
| BookTable.ToList | AspireAppTest.ApiService/Services/BookService.cs:29 | Reading the whole table yields every row exactly once, in some order, with no duplicate ids |
| BookTable.ListingIsTable | AspireAppTest.ApiService/Services/BookService.cs:29 | Any full read of the table holds the same set of books as the table, one entry per row |
| BookTable.TableIsListing | AspireAppTest.ApiService/Services/BookService.cs:29 | Conversely, a list of exactly the table's books with distinct ids is a full read of it |
| CacheAside.Coherent | AspireAppTest.ApiService/Services/BookService.cs:29-31 | The coherence invariant: an absent `"all_books"` is always coherent, and a present one holds exactly the table's books, one entry per row |
| CacheAside.Invalidate | AspireAppTest.ApiService/Services/BookService.cs:43 | Removing the cache key leaves `"all_books"` absent and every other cache entry as it was |
| CacheAside.ReadResult | AspireAppTest.ApiService/Services/BookService.cs:23-31 | GetBooksAsync returns the cached list on a hit; when the cache is coherent the answer is a full read of the table whether it hits or misses |
| CacheAside.AfterRead | AspireAppTest.ApiService/Services/BookService.cs:23-31 | GetBooksAsync never changes the table; afterwards `"all_books"` holds the list returned; a hit changes nothing; other keys are untouched; coherence is kept |
| CacheAside.AfterAdd | AspireAppTest.ApiService/Services/BookService.cs:39-45 | AddBookAsync adds exactly one row under the fresh id, keeps every other row, removes `"all_books"` and writes no cache entry |
| CacheAside.AfterUpdate | AspireAppTest.ApiService/Services/BookService.cs:47-52 | UpdateBookAsync replaces the row with `book.Id`, keeps the others, and removes `"all_books"`; when no such row exists the save fails and nothing changes |
| CacheAside.AfterDelete | AspireAppTest.ApiService/Services/BookService.cs:54-63 | DeleteBookAsync removes exactly the row with that id and removes `"all_books"`; an absent id changes neither table nor cache |
| CacheAsideProperties.ReadIsTransparent | AspireAppTest.ApiService/Services/BookService.cs:23-31 | Hit or miss, a coherent service returns exactly the table's books, one entry per row |
| CacheAsideProperties.ConsecutiveReads | AspireAppTest.ApiService/Services/BookService.cs:23-31 | With no write between them, the first read fills `"all_books"` and the second hits it, returning the same list and changing nothing |
| CacheAsideProperties.DeleteIdempotent | AspireAppTest.ApiService/Services/BookService.cs:54-63 | Deleting an id twice has the effect of deleting it once |
| CacheAsideProperties.ReadAfterAdd | AspireAppTest.ApiService/Services/BookService.cs:39-45 | After an add, GetBookById finds the new book and GetBooks lists it among one more book than before |
| CacheAsideProperties.ReadAfterUpdate | AspireAppTest.ApiService/Services/BookService.cs:47-52 | After an update, both reads return the new fields and no stale copy of the row |
| CacheAsideProperties.ReadAfterDelete | AspireAppTest.ApiService/Services/BookService.cs:54-63 | After a delete, GetBookById finds nothing and GetBooks omits the id |
| CacheAsideProperties.ApplyKeepsSound | AspireAppTest.ApiService/Services/BookService.cs:21-63 | Every service operation keeps the table well keyed and the cache coherent |
| CacheAsideProperties.RunKeepsSound | AspireAppTest.ApiService/Services/BookService.cs:29-61 | Coherence invariant: after any run of requests through the service, a present `"all_books"` lists exactly the table's rows; the only fill comes from the table and every write removes the key |
| CacheAsideProperties.ReadAfterRunIsCurrent | AspireAppTest.ApiService/Services/BookService.cs:21-63 | After any run of requests, a list read returns exactly the current table's books |
| CacheAsideProperties.WarmUpdateRead | AspireAppTest.ApiService/Services/BookService.cs:47-52 | Concrete run: warm the cache over three books, update the second, read again; the read returns the first, the new second and the third, and not the old second |
| BookServices.BookService.constructor | AspireAppTest.ApiService/Services/BookService.cs:15-19 | A service over a table and a cache that agree starts out valid |
| BookServices.BookService.GetBooks | AspireAppTest.ApiService/Services/BookService.cs:21-32 | On a hit returns the cached list and changes nothing; on a miss returns a full read of the table and stores exactly that list under `"all_books"`; the table is unchanged; always a full read of the current table |
| BookServices.BookService.GetBookById | AspireAppTest.ApiService/Services/BookService.cs:34-37 | Returns the stored book with that id or none, reading only the table |
| BookServices.BookService.AddBook | AspireAppTest.ApiService/Services/BookService.cs:39-45 | Stores the book under the next identity value, which no row had, and returns it with that id; afterwards `"all_books"` is absent |
| BookServices.BookService.UpdateBook | AspireAppTest.ApiService/Services/BookService.cs:47-52 | Succeeds exactly when a row with `book.Id` exists, replacing it and then removing `"all_books"`; on failure neither table nor cache changes |
| BookServices.BookService.DeleteBook | AspireAppTest.ApiService/Services/BookService.cs:54-63 | Looks the id up and only when found removes the row and `"all_books"`; an absent id changes nothing |
| BookServices.ReadTwice | AspireAppTest.ApiService/Services/BookService.cs:23-31 | Two consecutive GetBooks calls on the service object return the same list |
| BookServices.DeleteTwice | AspireAppTest.ApiService/Services/BookService.cs:54-63 | Two consecutive DeleteBook calls with one id leave the state a single call leaves |
| WebModels.Required | AspireAppTest.Web/Models/Book.cs:9-15 | `[Required]` rejects a null string and a blank one; a string it accepts is at least one character long |
| WebModels.StringLength | AspireAppTest.Web/Models/Book.cs:9-15 | `[StringLength]` accepts a null string; a string it accepts has at most `max` characters and at least `min` UTF-16 units, which is at most two per character |
| WebModels.InRange | AspireAppTest.Web/Models/Book.cs:17 | `[Range]` is inclusive at both ends: both bounds pass, values outside fail, and an empty range admits nothing |
| WebModels.IsValid | AspireAppTest.Web/Models/Book.cs:7-18 | A valid book has a present, non-blank title of 1 to 200 characters, a present, non-blank author of 1 to 100 characters, and a year from 1 to 9999 |
| WebModels.Utf16LengthBounds | AspireAppTest.Web/Models/Book.cs:10 | The length the length rule measures (UTF-16 code units) is between one and two units per character, and equals the character count inside the Basic Multilingual Plane |
| WebModels.RequiredImpliesMinimumLength | AspireAppTest.Web/Models/Book.cs:9-10 | A required (non-null, non-blank) string always meets `MinimumLength = 1`, so only the maximum remains to check |
| WebModels.ValidTitleShape | AspireAppTest.Web/Models/Book.cs:9-11 | A valid title is present, not blank, and 1 to 200 characters long |
| WebModels.ValidAuthorShape | AspireAppTest.Web/Models/Book.cs:13-15 | A valid author is present, not blank, and 1 to 100 characters long |
| WebModels.TitleValidInBmp | AspireAppTest.Web/Models/Book.cs:9-11 | For BMP text, a title is valid exactly when it is not blank and has 1 to 200 characters |
| WebModels.AuthorValidInBmp | AspireAppTest.Web/Models/Book.cs:13-15 | For BMP text, an author is valid exactly when it is not blank and has 1 to 100 characters |
| WebModels.MissingFieldInvalid | AspireAppTest.Web/Models/Book.cs:9-15 | A null or blank title or author makes the book invalid |
| WebModels.IdUnconstrained | AspireAppTest.Web/Models/Book.cs:7-18 | Validity is the conjunction of the three field rules and does not depend on the id |
| WebModels.AstralTitleCountsTwice | AspireAppTest.Web/Models/Book.cs:10 | A 150-character title made of characters outside the BMP is 300 code units long and fails the 200 limit |

## Left out

- JSON serialization of the cached list is abstracted away: the cache holds the list itself. The fallback of a deserialized `null` to an empty list is therefore not modelled.
- Cache failures: the source has no try/catch around the cache calls, so a failing cache makes the request fail. The model's cache operations cannot fail. A failed `RemoveAsync` after `SaveChangesAsync` has committed would leave a stale `"all_books"` that nothing expires. The coherence invariant therefore also assumes that every invalidation succeeds.
- Table failures other than the missing row on Update are not modelled: connectivity loss, constraint violations, and a second tracked instance of the same key. The missing row on Update is modelled as a failure that changes nothing, because the save throws before the cache is touched.
- BookService.AddBook: the table always assigns the id, whatever id the caller's book carries. With Entity Framework on PostgreSQL, a caller-supplied non-zero id would be inserted as given. That path can collide and is not modelled.
- Ids are unbounded integers. The 32-bit `int` of the source and overflow of the identity sequence are not modelled.
- Concurrency is not modelled; there is a single sequential caller. Requests are asynchronous and several service instances share one cache. A write can land between a miss's table read and its cache fill, and the fill then stores a stale list that nothing expires. The coherence invariant holds only for a single sequential caller.
- Writes that bypass the service are not modelled, for example the start-up seeding of the table. The constructor requires the table and cache to agree, and the coherence lemmas assume every write goes through the service.
- HTTP endpoints, status codes and the route-id/body-id check on PUT are routing, outside the service.
- Hosting, dependency injection, migrations and seed data are not modelled. Neither are the EF mapping (`LibraryDbContext`) or the `IBookService` interface, which holds signatures only.
- How the web project's annotation library enforces the rules is not modelled; only the predicate the annotations declare is.
