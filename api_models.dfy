/** The API's `Book` record: an integer id and three unvalidated fields. */
module ApiModels {
  import opened Wrappers

  /** One row of the Books table. `title` and `author` are nullable strings. */
  datatype Book = Book(id: int, title: Option<string>, author: Option<string>, publicationYear: int)
}
