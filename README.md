# Book collection service — verified model of its request logic

The service keeps a list of book records (`id`, `title`, `author`, `year`) in one JSON
file and answers four HTTP routes under `/api/libros`. This project models what happens
between reading that file and writing it back, for the three routes that have logic:

- **GET `/api/libros/:id`** — reject an id that is not a canonical version-4 UUID (400),
  otherwise search the collection (`books.find`) and answer the record (200) or "not
  found" (404).
- **POST `/api/libros`** — validate `title`, `author` and `year` with JavaScript's
  truthiness and `typeof` rules, in a fixed order (400 with one of three messages); search
  for a record with the same lower-cased title and a `===` year (409); otherwise build the
  record (fresh id, trimmed title and author, `year || null`), `push` it and answer it (201).
- **DELETE `/api/libros/:id`** — the same id check, then `books.findIndex`; 404 when absent,
  otherwise `splice` the record out and answer it (200).

Files, one module each:

- `js_values.dfy` (`JsValues`): the JSON values of a request body and the operators the
  handlers apply to them — truthiness, `typeof`, `===`, `||`.
- `js_strings.dfy` (`JsStrings`): `trim` (the full ECMAScript white-space set) and
  `toLowerCase` (ASCII letters).
- `uuid.dfy` (`Uuid`): `isValidUUID`. The regular expression is modelled as data
  (`MatchesUuidRegex`: a sequence of character classes matched under the `i` flag) and
  proved equal to the position-by-position predicate `IsValidUuid` that the handlers use.
- `books.dfy` (`Books`): records, request bodies, responses, the validator, the search
  (`FirstIndex`), and one function per handler giving the response and the collection that
  is written back (`GetResult`, `CreateResult`, `DeleteResult`).
- `book_laws.dfy` (`BookLaws`): the properties of those functions, including the ones that
  relate several requests (create-then-get, delete-then-get, duplicates).
- `book_store.dfy` (`BookStores`): class `BookStore` whose field `books` is the array the
  handler works on. `FindIndex` is the search loop; `Find`, `Get`, `Create` and `Delete`
  are the handlers, each proved to compute the function of `Books` for its route. `Delete`
  is proved to keep "every id valid and all ids distinct"; `Create` keeps it when the fresh
  id is valid and no record already has it.

The current year (`new Date().getFullYear()`) and the fresh id (`uuidv4()`) are parameters
of `Create`. Numbers are integers.

Three consequences of the code that the lemmas make explicit:

- The duplicate test compares years with `===` (index.js:91), and a body without a truthy
  year is stored with year `null` (index.js:104). `null` is not `===` to an absent year,
  `false`, `0` or `""`, so such a body can be created again and again, each time as a new
  record with the same title (`BookLaws.FalsyYearRepeats`).
- The presence check tests truthiness (index.js:69) before `trim` is applied
  (index.js:102-103), so a title or author made only of white space passes validation and
  is stored as the empty string (`BookLaws.BlankTitleIsStoredEmpty`).
- The duplicate test lower-cases the request title as sent (index.js:90), while stored
  titles were trimmed when they were created (index.js:102), so " Dune" is not a duplicate
  of a stored "Dune" (`BookLaws.PaddedTitleIsNotDuplicate`).

## Model

| member | source | states |
|---|---|---|
| `JsValues.Truthy` | index.js:69 | ToBoolean on a body value: undefined and null are falsy, a boolean is itself, a number is truthy when not 0, a string when not empty, an object or array always |
| `JsValues.TypeOf` | index.js:75 | `typeof` gives one of five names; "object" exactly for null and for objects and arrays |
| `JsValues.StrictEquals` | index.js:91 | `===`: equal primitives of the same kind; objects and arrays from a parsed body equal nothing |
| `JsValues.Or` | index.js:104 | `a || b` is one of its operands, and it is truthy exactly when one of them is |
| `JsValues.FalsyValues` | index.js:69 | exactly undefined, null, false, 0 and "" are falsy, which is what `!title`, `!author` and `year && …` test |
| `JsValues.StrictEqualsIsIdentityOnPrimitives` | index.js:91 | `===` holds exactly between equal primitive values; null and undefined are not `===` |
| `JsStrings.Trim` | index.js:102-103 | the trimmed string is no longer than the input and neither starts nor ends with white space |
| `JsStrings.TrimSplits` | index.js:102-103 | the input is white space, then the trimmed string, then white space |
| `JsStrings.TrimRecovers` | index.js:102-103 | whatever white space surrounds a string without white space at its ends, trimming gives back exactly that string |
| `JsStrings.TrimKeepsTrimmed` | index.js:102-103 | a string without white space at either end is left unchanged |
| `JsStrings.TrimIdempotent` | index.js:102-103 | trimming twice equals trimming once |
| `JsStrings.ToLowerCase` | index.js:90 | lower-casing keeps the length |
| `JsStrings.ToLowerCaseEqualIff` | index.js:90 | two lower-cased titles are equal exactly when the titles agree position by position up to the case of ASCII letters |
| `JsStrings.ToLowerCaseIdempotent` | index.js:90 | lower-casing twice equals lower-casing once |
| `Uuid.MatchesUuidRegex` | index.js:30-33 | `uuidRegex.test(id)`: the whole string matches the pattern of 36 character classes, one character per class, under the `i` flag |
| `Uuid.IsValidUuid` | index.js:30-33 | `isValidUUID` as the handlers use it: length 36, hyphens at 8, 13, 18, 23, `4` at 14, one of `89abAB` at 19, hexadecimal digits of either case elsewhere |
| `Uuid.MatchesPositionwise` | index.js:31-32 | an anchored pattern of single-character classes matches exactly the strings of its length whose every character is in the class at its position |
| `Uuid.UuidPatternAt` | index.js:31 | the pattern has 36 classes: hyphen at 8, 13, 18, 23, `4` at 14, `[89ab]` at 19, hex digit elsewhere |
| `Uuid.ClassMatchesChar` | index.js:31 | under the `i` flag `[0-9a-f]` accepts hex digits of either case, `[89ab]` accepts 8, 9, a, b, A, B |
| `Uuid.IsValidUuidPositionwise` | index.js:30-33 | a 36-character id is valid exactly when each position holds what that position allows |
| `Uuid.RegexAgreesWithIsValidUuid` | index.js:30-33 | the regular expression accepts a string exactly when it has length 36, hyphens at 8/13/18/23, `4` at 14, one of `89abAB` at 19 and hex digits of either case elsewhere |
| `Uuid.NotAUuidIsInvalid` | index.js:30-33 | "not-a-uuid" is rejected |
| `Uuid.SampleIdIsValid` | index.js:30-33 | a lower-case version-4 id of the kind `uuidv4()` makes is accepted |
| `Books.Validate` | index.js:69-85 | Missing exactly when title or author is falsy; otherwise BadType exactly when one is not a string; otherwise BadYear exactly when the year is truthy and not a number from 0 to the current year; no error exactly when both are non-empty strings and the year is falsy or a number from 1 to the current year |
| `Books.Selects` | index.js:53 | the callbacks of `find`/`findIndex`: by id, `===` on the id; for the duplicate test, equal lower-cased titles and `===` years |
| `Books.DuplicateQuery` | index.js:89-92 | the duplicate test uses the request title as sent, untrimmed, and the request year |
| `Books.FirstIndex` | index.js:125 | -1 exactly when no record is selected; otherwise a selected position with no selected record before it |
| `Books.FirstIndexUnique` | index.js:125 | any selected position with nothing selected before it is the one reported |
| `Books.GetResult` | index.js:44-63 | GET by id: invalid-id for an id the check rejects, otherwise the first record with that id, or not-found |
| `Books.NewBook` | index.js:100-105 | the new record: the fresh id, trimmed title and author, and `year || null` |
| `Books.CreateResult` | index.js:65-114 | POST: the first failing validation, else a duplicate when the search finds a record, else the new record answered and appended; the collection is unchanged except in the last case |
| `Books.DeleteResult` | index.js:116-141 | DELETE by id: invalid-id, not-found when no record has the id, else the first such record answered and cut out of the collection |
| `BookLaws.FalsyYearSkipsYearCheck` | index.js:81 | a falsy year gives the outcome of a body without a year, never BadYear |
| `BookLaws.GetResultCases` | index.js:48-59 | invalid-id exactly for an id the check rejects, not-found exactly for a valid id no record has, a record exactly for a valid id some record has |
| `BookLaws.GetReturnsFirstMatch` | index.js:53-59 | the record answered is the first one with that id |
| `BookLaws.DeleteResultCases` | index.js:120-129 | an id the check rejects gives invalid-id and a valid id no record has gives not-found, both leaving the collection unchanged; a record is deleted exactly when a valid id is present |
| `BookLaws.DeleteRemovesFirstMatch` | index.js:125-136 | the first record with the id is answered and removed: the rest keep their order and the multiset of records loses exactly that one |
| `BookLaws.RemovalPreservesWellFormed` | index.js:131 | removing any one position of a collection with valid, distinct ids keeps them valid and distinct |
| `BookLaws.DeletePreservesWellFormed` | index.js:131 | removing a record keeps all ids valid and distinct |
| `BookLaws.DeleteThenGet` | index.js:125-131 | with distinct ids, fetching a record just deleted gives not-found |
| `BookLaws.CreateRejectsInvalid` | index.js:69-85 | a failed validation answers its error and leaves the collection unchanged |
| `BookLaws.CreateDuplicateIff` | index.js:89-98 | a valid body is a duplicate exactly when a record has its lower-cased untrimmed title and a `===` year; a duplicate leaves the collection unchanged, anything else is created |
| `BookLaws.CreateAppends` | index.js:100-107 | success appends exactly one record after the unchanged old ones; it has the fresh id, trimmed title and author, and the request year when truthy, otherwise null, so a stored year is null or a number from 1 to the current year |
| `BookLaws.AppendPreservesWellFormed` | index.js:107 | appending a record with a valid id no record has keeps all ids valid and distinct |
| `BookLaws.CreatePreservesWellFormed` | index.js:101-107 | with a valid, unused fresh id, creation keeps all ids valid and distinct |
| `BookLaws.CreateThenGet` | index.js:100-110 | fetching by the id just created answers the created record |
| `BookLaws.SameTitleAndYearIsDuplicate` | index.js:89-98 | after creating a body with a numeric or null year and a trimmed title, any valid body with that title up to case and that year is a duplicate |
| `BookLaws.OtherYearIsNotBlocked` | index.js:89-92 | a record created with a numeric year does not block a body with a different year |
| `BookLaws.FalsyYearRepeats` | index.js:89-105 | a body whose year is absent, false, 0 or "" can be created twice, giving two records with the same title and null year |
| `BookLaws.BlankTitleIsStoredEmpty` | index.js:69-105 | a non-empty title made only of white space, with a string author and a falsy year, is created in an empty collection with the title stored as "" |
| `BookLaws.PaddedTitleIsNotDuplicate` | index.js:89-102 | " Dune" is not a duplicate of a stored "Dune" with the same year |
| `BookLaws.CreateInEmpty` | index.js:89-107 | in an empty collection a valid body is never a duplicate: it is created and becomes the only record |
| `BookLaws.TrimmedBodyIsCreated` | index.js:65-110 | a body with trimmed, non-empty title and author and a year from 1 to the current year is stored and answered unchanged, with the fresh id |
| `BookLaws.FirstRecordSession` | index.js:44-141 | once such a body is the only record, sending it again is a duplicate; the record is found by its id, deleted, and then not found |
| `BookStores.BookStore.constructor` | index.js:13-20 | the handler's array is the collection as read |
| `BookStores.BookStore.FindIndex` | index.js:125 | the loop's answer is `FirstIndex` of the array |
| `BookStores.BookStore.Find` | index.js:53 | none exactly when no record is selected, otherwise the first selected record |
| `BookStores.BookStore.Get` | index.js:44-63 | the answer is `GetResult` of the array |
| `BookStores.BookStore.Create` | index.js:65-114 | answer and new array are `CreateResult` of the old array; all ids stay valid and distinct when the fresh id is valid and unused |
| `BookStores.BookStore.Delete` | index.js:116-141 | answer and new array are `DeleteResult` of the old array; all ids stay valid and distinct |

## Left out

- Reading and writing the backing file and JSON parsing and printing (index.js:13-28): the
  store starts from the collection as read, and the collection after a handler is the one
  that would be written. Storage failures and the 500 answers of the `catch` blocks are not
  modelled.
- GET `/api/libros` (index.js:35-42): it answers the file's contents unchanged; it has no
  logic besides the read.
- Express routing, the JSON body parser, status codes and message bodies, the welcome route,
  the catch-all 404 route, `app.listen` (index.js:1-11, 143-166), and
  middleware/errorHandler.js. The response constructors stand for the status codes (200,
  201, 400, 404, 409).
- UUID generation (`uuidv4()`) and the clock: they are the `freshId` and `currentYear`
  parameters of `Create`.
- Fractional numbers and NaN: numbers are integers.
- `JsStrings.ToLowerCase`: lower-cases ASCII letters only, because the Unicode case tables
  are not modelled.
- Stored records whose `title` is not a string (calling `toLowerCase` on it throws, giving a
  500): record fields `id`, `title` and `author` are strings in the model.
- Objects and arrays under `===`: two of them are never the same object here, since each
  request body is parsed afresh.
- The lost-update race between concurrent requests: each request is one sequential step.
- The JavaScript array is a sequence field that `push` and `splice` replace; memory layout
  and aliasing of the array are not modelled.
