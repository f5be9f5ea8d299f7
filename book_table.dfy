/** The Books table as the service sees it through its database context: rows keyed by
    primary key, enumerated in an order the database chooses. */
module BookTable {
  import opened Wrappers
  import opened ApiModels

  /** Every row is stored under its own primary key. */
  ghost predicate WellKeyed(rows: map<int, Book>)
  {
    forall id :: id in rows ==> rows[id].id == id
  }

  /** No two entries of `books` carry the same id. */
  ghost predicate DistinctIds(books: seq<Book>)
  {
    forall i, j :: 0 <= i < j < |books| ==> books[i].id != books[j].id
  }

  /** `books` enumerates the table: every row exactly once, in any order. */
  ghost predicate IsListing(books: seq<Book>, rows: map<int, Book>)
  {
    && (forall i :: 0 <= i < |books| ==> books[i].id in rows && rows[books[i].id] == books[i])
    && (forall id :: id in rows ==> rows[id] in books)
    && DistinctIds(books)
  }

  /** The books of a list, forgetting order. */
  ghost function BookSet(books: seq<Book>): set<Book>
  {
    set b | b in books
  }

  /** The ids of a list. */
  ghost function IdSet(books: seq<Book>): set<int>
  {
    set b | b in books :: b.id
  }

  /** Looking a row up by primary key: the row stored under `id`, or none. */
  function Find(rows: map<int, Book>, id: int): (r: Option<Book>)
    requires WellKeyed(rows)
    ensures r.Some? <==> id in rows
    ensures r.Some? ==> r.value.id == id && r.value in rows.Values
  {
    if id in rows then Some(rows[id]) else None
  }

  /** Materialising the whole table into a list. The database returns the rows one by one in
      an unspecified order; the choice of the next row models that order. */
  method ToList(rows: map<int, Book>) returns (books: seq<Book>)
    requires WellKeyed(rows)
    ensures IsListing(books, rows)
  {
    books := [];
    var pending := rows.Keys;
    while pending != {}
      invariant pending <= rows.Keys
      invariant forall i :: 0 <= i < |books| ==> books[i].id in rows.Keys - pending && rows[books[i].id] == books[i]
      invariant forall id :: id in rows.Keys - pending ==> rows[id] in books
      invariant DistinctIds(books)
      decreases pending
    {
      if forall id :: id !in pending { assert false; }
      var key :| key in pending;
      books := books + [rows[key]];
      pending := pending - {key};
    }
  }

  /** A list with distinct ids has exactly as many ids as entries. */
  lemma {:induction false} DistinctIdsCount(books: seq<Book>)
    requires DistinctIds(books)
    ensures |IdSet(books)| == |books|
  {
    if books != [] {
      var rest := books[..|books| - 1];
      var last := books[|books| - 1];
      assert DistinctIds(rest);
      DistinctIdsCount(rest);
      assert books == rest + [last];
      assert IdSet(books) == IdSet(rest) + {last.id};
      assert last.id !in IdSet(rest) by {
        forall b | b in rest ensures b.id != last.id {
          var i :| 0 <= i < |rest| && rest[i] == b;
          assert books[i] == b;
        }
      }
    }
  }

  /** A listing holds exactly the table's rows, one entry per row: any two listings of the
      same table contain the same books and have the same length. */
  lemma ListingIsTable(books: seq<Book>, rows: map<int, Book>)
    requires WellKeyed(rows)
    requires IsListing(books, rows)
    ensures BookSet(books) == rows.Values
    ensures IdSet(books) == rows.Keys
    ensures |books| == |rows|
  {
    assert BookSet(books) == rows.Values by {
      forall b | b in BookSet(books) ensures b in rows.Values {
        var i :| 0 <= i < |books| && books[i] == b;
        assert rows[b.id] == b;
      }
      forall b | b in rows.Values ensures b in BookSet(books) {
        if forall id :: id in rows ==> rows[id] != b { assert false; }
        var id :| id in rows && rows[id] == b;
        assert rows[id] in books;
      }
    }
    assert IdSet(books) == rows.Keys by {
      forall id | id in rows ensures id in IdSet(books) {
        assert rows[id] in books;
      }
    }
    DistinctIdsCount(books);
    assert |rows.Keys| == |rows|;
  }

  /** Conversely, a duplicate-free list of exactly the table's rows is a listing of it. */
  lemma TableIsListing(books: seq<Book>, rows: map<int, Book>)
    requires WellKeyed(rows)
    requires DistinctIds(books)
    requires BookSet(books) == rows.Values
    ensures IsListing(books, rows)
  {
    forall i | 0 <= i < |books| ensures books[i].id in rows && rows[books[i].id] == books[i] {
      assert books[i] in rows.Values;
      if forall id :: id in rows ==> rows[id] != books[i] { assert false; }
      var id :| id in rows && rows[id] == books[i];
    }
    forall id | id in rows ensures rows[id] in books {
      assert rows[id] in rows.Values;
    }
  }
}
