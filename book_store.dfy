/** The in-memory side of the request handlers of index.js. One `BookStore` holds the
    array that `readBooksData()` returned for a request; the handler searches it with a
    loop and changes it in place (`push`, `splice`) before it is written back. The file
    read, the write and the HTTP response are outside the model. */
module BookStores {
  import opened Books
  import opened BookLaws
  import Uuid

  class BookStore {
    /** The `books` array of the request, in file order. */
    var books: seq<Book>

    /** The collection as loaded from the backing file. */
    constructor (loaded: seq<Book>)
      ensures books == loaded
    {
      books := loaded;
    }

    /** `books.findIndex(callback)`: visits the records in order and stops at the first
        one the callback selects. */
    method FindIndex(q: Query) returns (i: int)
      ensures i == FirstIndex(books, q)
    {
      i := 0;
      while i < |books|
        invariant 0 <= i <= |books|
        invariant forall j :: 0 <= j < i ==> !Selects(q, books[j])
      {
        if Selects(q, books[i]) {
          FirstIndexUnique(books, q, i);
          return;
        }
        i := i + 1;
      }
      i := -1;
    }

    /** `books.find(callback)`: the first record the callback selects, if any. */
    method Find(q: Query) returns (r: Option<Book>)
      ensures r.None? <==> forall j :: 0 <= j < |books| ==> !Selects(q, books[j])
      ensures r.Some? ==> r.value == books[FirstIndex(books, q)]
    {
      var i := FindIndex(q);
      r := if i == -1 then None else Some(books[i]);
    }

    /** GET /api/libros/:id (index.js:44-63). */
    method Get(id: string) returns (r: Response)
      ensures r == GetResult(books, id)
    {
      if !Uuid.IsValidUuid(id) {
        return BadRequest(InvalidId);
      }
      var found := Find(ById(id));
      if found.None? {
        return NotFound;
      }
      r := Ok(found.value);
    }

    /** POST /api/libros (index.js:65-114); `currentYear` stands for
        `new Date().getFullYear()` and `freshId` for `uuidv4()`. */
    method Create(req: Request, currentYear: int, freshId: string) returns (r: Response)
      modifies this
      ensures (r, books) == CreateResult(old(books), req, currentYear, freshId)
      ensures WellFormed(old(books)) && Uuid.IsValidUuid(freshId) && !HasId(old(books), freshId)
              ==> WellFormed(books)
    {
      var invalid := Validate(req, currentYear);
      if invalid.Some? {
        return BadRequest(invalid.value);
      }
      var existing := Find(DuplicateQuery(req));
      if existing.Some? {
        return Duplicate;
      }
      var book := NewBook(req, freshId);
      if WellFormed(books) && Uuid.IsValidUuid(freshId) && !HasId(books, freshId) {
        CreatePreservesWellFormed(books, req, currentYear, freshId);
      }
      books := books + [book];
      r := Created(book);
    }

    /** DELETE /api/libros/:id (index.js:116-141). */
    method Delete(id: string) returns (r: Response)
      modifies this
      ensures (r, books) == DeleteResult(old(books), id)
      ensures WellFormed(old(books)) ==> WellFormed(books)
    {
      if !Uuid.IsValidUuid(id) {
        return BadRequest(InvalidId);
      }
      var i := FindIndex(ById(id));
      if i == -1 {
        return NotFound;
      }
      if WellFormed(books) {
        DeletePreservesWellFormed(books, id);
      }
      var removed := books[i];
      books := books[..i] + books[i + 1..];
      r := Deleted(removed);
    }
  }
}
