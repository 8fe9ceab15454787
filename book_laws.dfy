/** What the three handlers promise, proved about the functions of `Books` that the
    methods of `BookStores.BookStore` are shown to compute. */
module BookLaws {
  import opened JsValues
  import opened JsStrings
  import opened Books
  import Uuid

  // ----- validation

  /** A falsy `year` (absent, null, false, 0 or "") is never looked at: the outcome is the
      one for a body without a year, and never the year error. */
  lemma FalsyYearSkipsYearCheck(req: Request, currentYear: int)
    requires !Truthy(req.year)
    ensures Validate(req, currentYear) == Validate(req.(year := Undefined), currentYear)
    ensures Validate(req, currentYear) != Some(BadYear)
  {
  }

  // ----- GET /api/libros/:id

  /** A malformed id is rejected before the collection is searched; a well-formed id that
      no record carries is "not found", a different answer; otherwise a record is returned. */
  lemma GetResultCases(books: seq<Book>, id: string)
    ensures GetResult(books, id) == BadRequest(InvalidId) <==> !Uuid.IsValidUuid(id)
    ensures GetResult(books, id) == NotFound <==> Uuid.IsValidUuid(id) && !HasId(books, id)
    ensures GetResult(books, id).Ok? <==> Uuid.IsValidUuid(id) && HasId(books, id)
  {
    if Uuid.IsValidUuid(id) && HasId(books, id) {
      var i :| 0 <= i < |books| && books[i].id == id;
      assert Selects(ById(id), books[i]);
    }
  }

  /** The record returned is the first one, in collection order, with that id. */
  lemma GetReturnsFirstMatch(books: seq<Book>, id: string, i: int)
    requires Uuid.IsValidUuid(id)
    requires 0 <= i < |books| && books[i].id == id
    requires forall j :: 0 <= j < i ==> books[j].id != id
    ensures GetResult(books, id) == Ok(books[i])
  {
    FirstIndexUnique(books, ById(id), i);
  }

  // ----- DELETE /api/libros/:id

  /** The same three-way split as for GET; the collection changes only when a record is removed. */
  lemma DeleteResultCases(books: seq<Book>, id: string)
    ensures !Uuid.IsValidUuid(id) ==> DeleteResult(books, id) == (BadRequest(InvalidId), books)
    ensures Uuid.IsValidUuid(id) && !HasId(books, id) ==> DeleteResult(books, id) == (NotFound, books)
    ensures DeleteResult(books, id).0.Deleted? <==> Uuid.IsValidUuid(id) && HasId(books, id)
  {
    if Uuid.IsValidUuid(id) && HasId(books, id) {
      var i :| 0 <= i < |books| && books[i].id == id;
      assert Selects(ById(id), books[i]);
    }
  }

  /** Deleting removes exactly the first record with the id, returns it, and keeps the
      others in their order. */
  lemma DeleteRemovesFirstMatch(books: seq<Book>, id: string, i: int)
    requires Uuid.IsValidUuid(id)
    requires 0 <= i < |books| && books[i].id == id
    requires forall j :: 0 <= j < i ==> books[j].id != id
    ensures DeleteResult(books, id) == (Deleted(books[i]), books[..i] + books[i + 1..])
    ensures var after := DeleteResult(books, id).1;
            |after| == |books| - 1
            && (forall k :: 0 <= k < i ==> after[k] == books[k])
            && (forall k :: i <= k < |after| ==> after[k] == books[k + 1])
            && multiset(after) + multiset{books[i]} == multiset(books)
  {
    FirstIndexUnique(books, ById(id), i);
    assert books == books[..i] + [books[i]] + books[i + 1..];
  }

  /** Removing one position keeps every id valid and all ids distinct. */
  lemma RemovalPreservesWellFormed(books: seq<Book>, i: nat)
    requires WellFormed(books) && i < |books|
    ensures WellFormed(books[..i] + books[i + 1..])
  {
    var after := books[..i] + books[i + 1..];
    assert forall k :: 0 <= k < |after| ==> after[k] == books[if k < i then k else k + 1];
  }

  /** Removing a record keeps every id valid and all ids distinct. */
  lemma DeletePreservesWellFormed(books: seq<Book>, id: string)
    requires WellFormed(books)
    ensures WellFormed(DeleteResult(books, id).1)
  {
    var i := FirstIndex(books, ById(id));
    if Uuid.IsValidUuid(id) && i != -1 {
      RemovalPreservesWellFormed(books, i);
    }
  }

  /** Once ids are distinct, a record that was deleted is not found afterwards. */
  lemma DeleteThenGet(books: seq<Book>, id: string)
    requires IdsDistinct(books)
    requires DeleteResult(books, id).0.Deleted?
    ensures GetResult(DeleteResult(books, id).1, id) == NotFound
  {
    var i := FirstIndex(books, ById(id));
    var after := DeleteResult(books, id).1;
    assert after == books[..i] + books[i + 1..];
    forall k | 0 <= k < |after| ensures !Selects(ById(id), after[k]) {
      if k < i {
        assert after[k] == books[k];
      } else {
        assert after[k] == books[k + 1];
      }
    }
  }

  // ----- POST /api/libros

  /** A failed validation answers its error; the collection is left as it was. */
  lemma CreateRejectsInvalid(books: seq<Book>, req: Request, currentYear: int, freshId: string)
    requires Validate(req, currentYear).Some?
    ensures CreateResult(books, req, currentYear, freshId)
         == (BadRequest(Validate(req, currentYear).value), books)
  {
  }

  /** A valid body is a duplicate exactly when some record has the same lower-cased title as
      the untrimmed request title and a year `===` to the request's; a duplicate leaves the
      collection as it was, anything else is created. */
  lemma CreateDuplicateIff(books: seq<Book>, req: Request, currentYear: int, freshId: string)
    requires Validate(req, currentYear) == None
    ensures CreateResult(books, req, currentYear, freshId).0 == Duplicate
        <==> exists j :: 0 <= j < |books|
               && ToLowerCase(books[j].title) == ToLowerCase(req.title.s)
               && StrictEquals(books[j].year, req.year)
    ensures CreateResult(books, req, currentYear, freshId).0 == Duplicate
        ==> CreateResult(books, req, currentYear, freshId).1 == books
    ensures CreateResult(books, req, currentYear, freshId).0 != Duplicate
        ==> CreateResult(books, req, currentYear, freshId).0.Created?
  {
    var q := DuplicateQuery(req);
    if exists j :: 0 <= j < |books|
         && ToLowerCase(books[j].title) == ToLowerCase(req.title.s)
         && StrictEquals(books[j].year, req.year)
    {
      var j :| 0 <= j < |books|
         && ToLowerCase(books[j].title) == ToLowerCase(req.title.s)
         && StrictEquals(books[j].year, req.year);
      assert Selects(q, books[j]);
    }
  }

  /** A successful creation appends one record and leaves the earlier ones in place. The
      record carries the fresh id, the trimmed title and author, and `year || null`: so an
      absent or zero year is stored as null, and a stored year is otherwise a number from
      1 to the current year. */
  lemma CreateAppends(books: seq<Book>, req: Request, currentYear: int, freshId: string)
    requires CreateResult(books, req, currentYear, freshId).0.Created?
    ensures Validate(req, currentYear) == None
    ensures var (r, after) := CreateResult(books, req, currentYear, freshId);
            after == books + [r.book]
            && |after| == |books| + 1
            && (forall k :: 0 <= k < |books| ==> after[k] == books[k])
            && r.book.id == freshId
            && r.book.title == Trim(req.title.s)
            && r.book.author == Trim(req.author.s)
            && r.book.year == (if Truthy(req.year) then req.year else Null)
            && (r.book.year == Null || (r.book.year.Num? && 1 <= r.book.year.n <= currentYear))
  {
  }

  /** Appending a record with a valid id no other record has keeps every id valid and all
      ids distinct. */
  lemma AppendPreservesWellFormed(books: seq<Book>, book: Book)
    requires WellFormed(books)
    requires Uuid.IsValidUuid(book.id) && !HasId(books, book.id)
    ensures WellFormed(books + [book])
  {
    var after := books + [book];
    assert forall k :: 0 <= k < |books| ==> after[k] == books[k];
    assert after[|books|] == book;
  }

  /** Appending a record whose fresh id is valid and not yet used keeps every id valid and
      all ids distinct. */
  lemma CreatePreservesWellFormed(books: seq<Book>, req: Request, currentYear: int, freshId: string)
    requires WellFormed(books)
    requires Uuid.IsValidUuid(freshId) && !HasId(books, freshId)
    ensures WellFormed(CreateResult(books, req, currentYear, freshId).1)
  {
    if CreateResult(books, req, currentYear, freshId).0.Created? {
      CreateAppends(books, req, currentYear, freshId);
      AppendPreservesWellFormed(books, CreateResult(books, req, currentYear, freshId).0.book);
    }
  }

  /** Fetching a record by the id it was just created with returns that very record. */
  lemma CreateThenGet(books: seq<Book>, req: Request, currentYear: int, freshId: string)
    requires CreateResult(books, req, currentYear, freshId).0.Created?
    requires Uuid.IsValidUuid(freshId) && !HasId(books, freshId)
    ensures var (r, after) := CreateResult(books, req, currentYear, freshId);
            GetResult(after, freshId) == Ok(r.book)
  {
    var (r, after) := CreateResult(books, req, currentYear, freshId);
    assert after == books + [r.book];
    forall j | 0 <= j < |books| ensures after[j].id != freshId {
      assert after[j] == books[j];
    }
    GetReturnsFirstMatch(after, freshId, |books|);
  }

  /** After a creation with a numeric year or an explicit null, a valid body with the same
      title up to case — the same body again, say — and the same year is a duplicate. */
  lemma SameTitleAndYearIsDuplicate(
    books: seq<Book>, req: Request, req': Request, currentYear: int, freshId: string, freshId': string)
    requires CreateResult(books, req, currentYear, freshId).0.Created?
    requires Truthy(req.year) || req.year == Null
    requires Trim(req.title.s) == req.title.s
    requires Validate(req', currentYear) == None
    requires ToLowerCase(req'.title.s) == ToLowerCase(req.title.s) && req'.year == req.year
    ensures var after := CreateResult(books, req, currentYear, freshId).1;
            CreateResult(after, req', currentYear, freshId') == (Duplicate, after)
  {
    var (r, after) := CreateResult(books, req, currentYear, freshId);
    CreateAppends(books, req, currentYear, freshId);
    assert after[|books|] == r.book;
    CreateDuplicateIff(after, req', currentYear, freshId');
  }

  /** A record created with a numeric year does not block a body with a different year. */
  lemma OtherYearIsNotBlocked(
    books: seq<Book>, req: Request, req': Request, currentYear: int, freshId: string, freshId': string)
    requires CreateResult(books, req, currentYear, freshId).0.Created?
    requires Truthy(req.year) && req'.year != req.year
    requires CreateResult(books, req', currentYear, freshId').0.Created?
    ensures var after := CreateResult(books, req, currentYear, freshId).1;
            CreateResult(after, req', currentYear, freshId').0.Created?
  {
    var (r, after) := CreateResult(books, req, currentYear, freshId);
    CreateAppends(books, req, currentYear, freshId);
    CreateAppends(books, req', currentYear, freshId');
    CreateDuplicateIff(books, req', currentYear, freshId');
    CreateDuplicateIff(after, req', currentYear, freshId');
  }

  /** A body whose year is falsy but not null (absent, false, 0 or "") is stored with a null
      year, and null is not `===` to it: sending the same body again creates a second record,
      so two records then share title and year. */
  lemma FalsyYearRepeats(
    books: seq<Book>, req: Request, currentYear: int, freshId: string, freshId': string)
    requires CreateResult(books, req, currentYear, freshId).0.Created?
    requires !Truthy(req.year) && req.year != Null
    ensures var (r, after) := CreateResult(books, req, currentYear, freshId);
            var (r', after') := CreateResult(after, req, currentYear, freshId');
            r'.Created? && r.book.title == r'.book.title && r.book.year == r'.book.year == Null
  {
    var (r, after) := CreateResult(books, req, currentYear, freshId);
    CreateAppends(books, req, currentYear, freshId);
    CreateDuplicateIff(books, req, currentYear, freshId);
    CreateDuplicateIff(after, req, currentYear, freshId');
    CreateAppends(after, req, currentYear, freshId');
  }

  /** A title of white space only is truthy, so it passes validation and is stored as "". */
  lemma BlankTitleIsStoredEmpty(req: Request, currentYear: int, freshId: string)
    requires req.title.Str? && req.title.s != "" && AllWhitespace(req.title.s)
    requires IsNonEmptyString(req.author) && !Truthy(req.year)
    ensures var b := Book(freshId, "", Trim(req.author.s), Null);
            CreateResult([], req, currentYear, freshId) == (Created(b), [b])
  {
    FalsyValues(req.year);
    CreateInEmpty(req, currentYear, freshId);
    assert req.title.s + "" + "" == req.title.s;
    TrimRecovers(req.title.s, "", "");
  }

  /** The duplicate test compares the stored trimmed title with the untrimmed request title,
      so padding a title with blanks gets past it. */
  lemma PaddedTitleIsNotDuplicate(currentYear: int, id: string, id': string)
    requires currentYear >= 1965
    ensures var dune := Book(id, "Dune", "Herbert", Num(1965));
            CreateResult([dune], Request(Str(" Dune"), Str("Herbert"), Num(1965)), currentYear, id').0.Created?
  {
    var req := Request(Str(" Dune"), Str("Herbert"), Num(1965));
    var dune := Book(id, "Dune", "Herbert", Num(1965));
    assert |ToLowerCase(dune.title)| != |ToLowerCase(req.title.s)|;
    CreateDuplicateIff([dune], req, currentYear, id');
  }

  /** In an empty collection nothing is a duplicate: a valid body is created and becomes
      the only record. */
  lemma CreateInEmpty(req: Request, currentYear: int, freshId: string)
    requires Validate(req, currentYear) == None
    ensures CreateResult([], req, currentYear, freshId)
         == (Created(NewBook(req, freshId)), [NewBook(req, freshId)])
  {
    assert [] + [NewBook(req, freshId)] == [NewBook(req, freshId)];
  }

  /** A body whose title and author are non-empty and already trimmed and whose year is a
      number from 1 to the current year, sent to an empty collection, stores and answers
      exactly the record with those fields and the fresh id. */
  lemma TrimmedBodyIsCreated(title: string, author: string, year: int, currentYear: int, id: string)
    requires title != "" && !IsWhitespace(title[0]) && !IsWhitespace(title[|title| - 1])
    requires author != "" && !IsWhitespace(author[0]) && !IsWhitespace(author[|author| - 1])
    requires 1 <= year <= currentYear
    ensures var b := Book(id, title, author, Num(year));
            CreateResult([], Request(Str(title), Str(author), Num(year)), currentYear, id)
              == (Created(b), [b])
  {
    CreateInEmpty(Request(Str(title), Str(author), Num(year)), currentYear, id);
    TrimKeepsTrimmed(title);
    TrimKeepsTrimmed(author);
  }

  /** The rest of that first session: the same body again is a duplicate; the record is
      found by its id, deleted by it, and then no longer found. */
  lemma FirstRecordSession(title: string, author: string, year: int, currentYear: int, id: string, id': string)
    requires title != "" && !IsWhitespace(title[0]) && !IsWhitespace(title[|title| - 1])
    requires author != "" && !IsWhitespace(author[0]) && !IsWhitespace(author[|author| - 1])
    requires 1 <= year <= currentYear && Uuid.IsValidUuid(id)
    ensures var b := Book(id, title, author, Num(year));
            CreateResult([b], Request(Str(title), Str(author), Num(year)), currentYear, id')
              == (Duplicate, [b])
            && GetResult([b], id) == Ok(b)
            && DeleteResult([b], id) == (Deleted(b), [])
            && GetResult([], id) == NotFound
  {
    var req := Request(Str(title), Str(author), Num(year));
    TrimmedBodyIsCreated(title, author, year, currentYear, id);
    SameTitleAndYearIsDuplicate([], req, req, currentYear, id, id');
    CreateThenGet([], req, currentYear, id);
    DeleteRemovesFirstMatch([Book(id, title, author, Num(year))], id, 0);
  }
}
