/** What one request to the book collection answers and what it leaves in the collection,
    stated as functions of the collection read at the start of the request (index.js:44-141).
    The handlers of `BookStores.BookStore` are proved to compute exactly these. */
module Books {
  import opened JsValues
  import opened JsStrings
  import Uuid

  /** A stored record. Records come from a JSON file, so `year` may be any JSON value;
      those the service writes have `null` or a positive number there. */
  datatype Book = Book(id: string, title: string, author: string, year: JsValue)

  /** The fields `title`, `author` and `year` of a POST body. */
  datatype Request = Request(title: JsValue, author: JsValue, year: JsValue)

  datatype BadRequestKind =
    | InvalidId   // "ID inválido"
    | Missing     // "Los campos titulo y autor son obligatorios"
    | BadType     // "Titulo y autor no validos"
    | BadYear     // "El año debe ser un número válido"

  /** One response: 200 (Ok, Deleted), 201 (Created), 400, 404 or 409. */
  datatype Response =
    | Ok(book: Book)
    | Created(book: Book)
    | Deleted(book: Book)
    | BadRequest(kind: BadRequestKind)
    | NotFound
    | Duplicate

  datatype Option<T> = None | Some(value: T)

  // ----- validation of a POST body (index.js:69-85)

  predicate IsNonEmptyString(v: JsValue) {
    v.Str? && v.s != ""
  }

  /** The three checks of the creation handler, in order; the first that fails decides. */
  function Validate(req: Request, currentYear: int): (e: Option<BadRequestKind>)
    ensures e == Some(Missing) <==> !Truthy(req.title) || !Truthy(req.author)
    ensures e == Some(BadType)
        <==> Truthy(req.title) && Truthy(req.author) && !(req.title.Str? && req.author.Str?)
    ensures e == Some(BadYear)
        <==> IsNonEmptyString(req.title) && IsNonEmptyString(req.author)
             && Truthy(req.year) && !(req.year.Num? && 0 <= req.year.n <= currentYear)
    ensures e == None
        <==> IsNonEmptyString(req.title) && IsNonEmptyString(req.author)
             && (req.year in {Undefined, Null, Bool(false), Num(0), Str("")}
                 || (req.year.Num? && 1 <= req.year.n <= currentYear))
  {
    if !Truthy(req.title) || !Truthy(req.author) then Some(Missing)
    else if TypeOf(req.title) != "string" || TypeOf(req.author) != "string" then Some(BadType)
    else if Truthy(req.year)
            && (TypeOf(req.year) != "number" || req.year.n < 0 || req.year.n > currentYear)
    then Some(BadYear)
    else None
  }

  // ----- searching the collection (Array.prototype.find and findIndex)

  /** The callbacks given to `find` and `findIndex`. */
  datatype Query =
    | ById(id: string)                                  // b => b.id === id
    | ByTitleAndYear(title: string, year: JsValue)      // the duplicate test of index.js:89-92

  predicate Selects(q: Query, b: Book) {
    match q
    case ById(id) => b.id == id
    case ByTitleAndYear(title, year) =>
      ToLowerCase(b.title) == ToLowerCase(title) && StrictEquals(b.year, year)
  }

  /** `findIndex`: the first position the query selects, or -1 when it selects none. */
  function FirstIndex(books: seq<Book>, q: Query): (i: int)
    ensures -1 <= i < |books|
    ensures i == -1 <==> forall j :: 0 <= j < |books| ==> !Selects(q, books[j])
    ensures 0 <= i ==> Selects(q, books[i]) && forall j :: 0 <= j < i ==> !Selects(q, books[j])
    decreases |books|
  {
    if books == [] then -1
    else if Selects(q, books[0]) then 0
    else
      var k := FirstIndex(books[1..], q);
      assert forall j :: 1 <= j < |books| ==> books[j] == books[1..][j - 1];
      if k == -1 then -1 else k + 1
  }

  /** Any first selected position is the one `FirstIndex` reports. */
  lemma FirstIndexUnique(books: seq<Book>, q: Query, i: int)
    requires 0 <= i < |books| && Selects(q, books[i])
    requires forall j :: 0 <= j < i ==> !Selects(q, books[j])
    ensures FirstIndex(books, q) == i
  {
  }

  // ----- the three handlers

  /** GET /api/libros/:id (index.js:44-63). */
  function GetResult(books: seq<Book>, id: string): Response {
    if !Uuid.IsValidUuid(id) then BadRequest(InvalidId)
    else
      var i := FirstIndex(books, ById(id));
      if i == -1 then NotFound else Ok(books[i])
  }

  /** The duplicate test of index.js:89-92, on the untrimmed request title. */
  function DuplicateQuery(req: Request): Query
    requires req.title.Str?
  {
    ByTitleAndYear(req.title.s, req.year)
  }

  /** The record built at index.js:100-105. */
  function NewBook(req: Request, freshId: string): Book
    requires req.title.Str? && req.author.Str?
  {
    Book(freshId, Trim(req.title.s), Trim(req.author.s), Or(req.year, Null))
  }

  /** POST /api/libros (index.js:65-114): the response and the collection written back. */
  function CreateResult(books: seq<Book>, req: Request, currentYear: int, freshId: string)
    : (Response, seq<Book>)
  {
    match Validate(req, currentYear)
    case Some(kind) => (BadRequest(kind), books)
    case None =>
      if FirstIndex(books, DuplicateQuery(req)) != -1 then (Duplicate, books)
      else
        var b := NewBook(req, freshId);
        (Created(b), books + [b])
  }

  /** DELETE /api/libros/:id (index.js:116-141): the response and the collection written back. */
  function DeleteResult(books: seq<Book>, id: string): (Response, seq<Book>) {
    if !Uuid.IsValidUuid(id) then (BadRequest(InvalidId), books)
    else
      var i := FirstIndex(books, ById(id));
      if i == -1 then (NotFound, books)
      else (Deleted(books[i]), books[..i] + books[i + 1..])
  }

  // ----- invariants of the stored collection

  predicate AllIdsValid(books: seq<Book>) {
    forall i :: 0 <= i < |books| ==> Uuid.IsValidUuid(books[i].id)
  }

  predicate IdsDistinct(books: seq<Book>) {
    forall i, j :: 0 <= i < j < |books| ==> books[i].id != books[j].id
  }

  predicate HasId(books: seq<Book>, id: string) {
    exists i :: 0 <= i < |books| && books[i].id == id
  }

  predicate WellFormed(books: seq<Book>) {
    AllIdsValid(books) && IdsDistinct(books)
  }
}
