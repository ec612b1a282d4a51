# Nalanda book management server, modelled in Dafny

This project models the core of the Nalanda library server, an Express and
Mongoose application. The core covers:

- the borrow ledger and the book catalog;
- the handlers that borrow, return, add, update and delete books and list a user's history;
- the book listing query;
- the three reports;
- the payload middlewares in front of these routes;
- the three schemas.

Module by module:

- `Js` holds the JavaScript values a request carries (`undefined`, `null`,
  booleans, integers, strings, arrays, objects), with the conversions the
  source relies on: truthiness, `trim`, ASCII case mapping, `String(v)`,
  `parseInt`, `Number(v)`, `<`, the date check, and string length counted
  in UTF-16 code units as `length`, `minlength` and `maxlength` count it.
- `Common` holds the application's enum constants, the `{ status, message }`
  replies, the ObjectId check, and the "last failure overwrites `errMsg`"
  pattern several validators share. `Canon` is the ObjectId a hex id casts
  to, written in lower case: every lookup by id, in the handlers and in the
  middlewares, matches `Canon` of the id sent, so ids that differ only in the
  case of their hex letters name the same document.
- `BookModel`, `BorrowModel` and `UserModel` cover the schemas:
  - `BookModel` has the `trim` setters, the length and counter validators, and
    the unique index on `isbn`;
  - `BorrowModel` has the required ObjectId ids, the `trim` setter and enum of `status`, the
    return-date validator, and the compound index, which is not unique;
  - `UserModel` has the `trim`, `lowercase` and `uppercase` setters, the
    length validators and the role enum, and states the unique index on
    `email`, which no modelled operation needs.
- `Circulation` has each handler as a function from the stores before a
  request to the reply and the stores after it. It defines two invariants of
  the stores:
  - well-formedness (`Wellformed`): book documents have valid strings and
    counters of at least 0, isbns are unique, ledger records are
    well-shaped, and no (user, book) pair has two BORROWED records;
  - balance (`Balanced`): for every book, free plus lent copies are at most
    its total.

  Borrow, return and delete keep both invariants. Add keeps well-formedness,
  and keeps the balance when no ledger record names the new id. Update keeps
  only well-formedness: an admin update can unbalance the stores
  (`UpdateThenReturnExceedsTotal`).
- `Stores.Library` is a class holding the two collections as fields. Each
  method performs one request in place, in the handler's order (lookup, write,
  then the counter update). Each is proved to produce exactly the
  `Circulation` step, and to keep the invariants that step keeps, as listed
  above.
- `BookQuery` builds the genre list, the `$or` filter and the pagination.
- `Reports` models the group, sort and join aggregations as functions on the
  collections' contents.
- `AuthMiddleware`, `BookMiddleware` and `BorrowMiddleware` model the payload
  checks, with the exact order in which their messages take precedence.
  `checkEmailPasswordValues` and `checkStringTypelength` are methods with
  loops, because the source runs a `forEach` that reassigns `errMsg`.

Calls into libraries are parameters of the model. These are `validator.isEmail`,
`isStrongPassword` and `isISBN`, and the parsing of date strings. The lookups'
results are parameters too: the set of user ids, and the freshly generated
document id.

## Model

| member | source | states |
|---|---|---|
| `Js.Trim` | src/models/bookModel.js:9 | the result has no leading or trailing whitespace and is no longer than the input |
| `Js.TrimOfTrimmed` | src/models/bookModel.js:9 | trimming a string that is already trimmed leaves it unchanged |
| `Js.TrimPadded` | src/models/bookModel.js:9 | trimming removes exactly the whitespace padding around a non-empty trimmed string |
| `Js.TrimIdempotent` | src/models/bookModel.js:9 | trimming twice gives the same string as trimming once |
| `Js.ToLower` | src/models/userModel.js:21 | the same length, with every character mapped to lower case |
| `Js.ToUpper` | src/models/userModel.js:37 | the same length, with every character mapped to upper case |
| `Js.LowerPreservesTrimmed` | src/models/userModel.js:20-21 | lower-casing a trimmed string keeps it trimmed and makes it lower case |
| `Js.UpperPreservesTrimmed` | src/models/userModel.js:33-37 | upper-casing a trimmed string keeps it trimmed (used by `UserModel.CastRole`) |
| `Js.UpperOfUpper` | src/models/userModel.js:37 | upper-casing a string already in upper case leaves it unchanged (used by `UserModel.RoleFixed`) |
| `Js.LowerOfLower` | src/models/userModel.js:21 | lower-casing a string already in lower case leaves it unchanged (used by `UserModel.EmailFixed` and `Common.CanonCases`) |
| `Js.Utf16Length` | src/models/bookModel.js:10-11 | `length` lies between the number of characters and twice that, and is 0 only for the empty string |
| `Js.BmpLength` | src/models/bookModel.js:10-11 | without characters above U+FFFF, `length` is the number of characters |
| `Js.LowerKeepsLength` | src/models/userModel.js:20-22 | lower-casing keeps the `length` |
| `Js.NatToString` | src/controllers/bookController.js:141 | the decimal numeral of a count is non-empty, all digits, with no leading zero |
| `Js.DigitsOfNatToString` | src/controllers/bookController.js:141 | reading the digits of the numeral of n gives n back |
| `Js.ParseInt` | src/controllers/bookController.js:140-147 | no ensures: `parseInt` with no radix skips leading whitespace, takes one sign, reads a `0x` prefix as hexadecimal and then the longest run of digits, and is NaN when there are none (`ReadMagnitude`, then `Signed`); `Js.ParseIntOfNatToString` and `Js.ParseIntNegates` state its contract, and `BookQuery.LimitOfNumeral` and `PageOfNumeral` use it |
| `Js.ParseIntNegates` | src/controllers/bookController.js:140-147 | a leading minus sign negates the number `parseInt` reads, and leaves NaN as NaN |
| `Js.ParseIntUnpadded` | src/controllers/bookController.js:140-147 | without leading whitespace, `parseInt` takes a `-` or `+` sign, then reads the magnitude (`ReadMagnitude`) of the rest; with no sign it reads the whole string as the magnitude (used by `Js.ParseIntNegates`) |
| `Js.ParseIntOfNatToString` | src/controllers/bookController.js:140-147 | `parseInt` of the decimal numeral of n is n |
| `Js.DigitPrefixOfDigits` | src/controllers/bookController.js:140-147 | `parseInt` reads every character of an all-digit string (used by `Js.ParseIntOfNatToString`) |
| `Js.ToNumber` | src/middlewares/bookMiddleware.js:124-152 | no ensures: `Number(v)` on each kind of value: undefined is NaN, null and false are 0, true is 1, strings by `StringToNumber`, arrays and objects through their string form; `Js.Less` is built on it |
| `Js.Less` | src/middlewares/bookMiddleware.js:124-152 | no ensures: `a < b`: two strings compare by character, anything else compares as numbers and is false when either is NaN; `BookMiddleware.AddCopiesError`, `NegativeTotalReportsComparison` and `NullTotal` state the replies that follow from it |
| `Js.Greater` | src/middlewares/bookMiddleware.js:239-252 | no ensures: `a > b` is `b < a`; `BookMiddleware.UpdateErrors`, `UpdateBookPayloadCheck` and `UpdateComparesCounts` use it |
| `Js.DateValid` | src/middlewares/bookMiddleware.js:79-88 | no ensures: `isValid(new Date(v))`: false for undefined, true for null and booleans, a number within the time range, and the date parser (a parameter) on strings; `BookMiddleware.CheckIsbnPubDate` and `UpdateWithoutDateRefused` state the replies that follow from it |
| `Common.LastError` | src/middlewares/authMiddleware.js:45-61 | the overwritten `errMsg` is null exactly when every check passed |
| `Common.LastErrorIsLast` | src/middlewares/authMiddleware.js:45-61 | a reported message is one of the failures, and every check after it passed |
| `Common.LastErrorSnoc` | src/middlewares/bookMiddleware.js:69-74 | one more check: its failure, if any, replaces the message |
| `Common.LastErrorPair` | src/middlewares/authMiddleware.js:36-61 | of two checks, the second one's failure wins |
| `Common.IsObjectIdHex` | src/middlewares/borrowMiddleware.js:28-34 | no ensures: `isObjectIdOrHexString` on a string: exactly 24 hexadecimal digits of either case; `Common.Canon`, `Common.CanonCases`, `BorrowMiddleware.PayloadFormError` and `BookMiddleware.CheckValidBookId` state it |
| `Common.Canon` | src/middlewares/borrowMiddleware.js:11-12 | the cast id has the same length, is lower case, and is a well-formed ObjectId exactly when the id sent is |
| `Common.LowerKeepsDigit` | src/middlewares/borrowMiddleware.js:11-12 | lower-casing a character keeps its digit value, so a hex digit stays one (used by `Common.Canon`) |
| `Common.CanonCases` | src/middlewares/borrowMiddleware.js:11-12 | a well-formed id casts to a stored-form id; casting is idempotent, ignores the case of the hex letters, and leaves a stored id as it is |
| `BookModel.CastBook` | src/models/bookModel.js:6-35 | the cast document's strings are valid exactly when the trimmed submitted strings lie within 1-150, 2-100, 10-13 and 3-30 UTF-16 code units; the counters are unchanged |
| `BookModel.ValidBook` | src/models/bookModel.js:6-47 | no ensures: the predicate every validator of the Book schema accepts; `BookModel.ValidBookBounds` states what it implies, and `BookModel.CastBook` states it of a cast document |
| `BookModel.ValidBookBounds` | src/models/bookModel.js:6-47 | a valid document has 0 <= availableCopies <= totalCopies and its strings within their length bounds in code units (and so within half of each lower bound and the upper bound in characters) |
| `BookModel.CastOfValid` | src/models/bookModel.js:6-35 | casting a stored document again leaves it unchanged |
| `BookModel.CastIdempotent` | src/models/bookModel.js:6-35 | casting is idempotent for every input |
| `BookModel.UniqueIsbns` | src/models/bookModel.js:22 | no ensures: the `unique: true` index on `isbn`, behind the 409 of the add handler and the duplicate-key 500 of the update handler; `Circulation.InsertKeepsUnique` and `ReplaceKeepsUnique` state that add and update keep it, and `Circulation.Wellformed` includes it |
| `BorrowModel.ParseStatus` | src/models/borrowModel.js:30-35 | a status is accepted exactly when the trimmed text is BORROWED or RETURNED, and the accepted value names it |
| `BorrowModel.StatusRoundTrip` | src/models/borrowModel.js:30-35 | parsing a status's name gives the status back |
| `BorrowModel.StatusIgnoresPadding` | src/models/borrowModel.js:30-35 | whitespace around a status name does not change the parsed status |
| `BorrowModel.ValidLoan` | src/models/borrowModel.js:7-29 | no ensures: both ids are well-formed ObjectIds and a return date, when there is one, is after the borrow date; `Circulation.ReturnDates` states that a return in a later second keeps it, and `BorrowModel.SchemaAllowsDuplicateActiveLoans` that it allows two open records of one pair |
| `BorrowModel.ActiveIndex` | src/controllers/borrowController.js:15-22 | None exactly when no BORROWED record of the pair exists; otherwise the first such record |
| `BorrowModel.ActiveCountPositive` | src/controllers/borrowController.js:96-100 | a book with a BORROWED record has a positive count of open loans |
| `BorrowModel.ActiveCountAppend` | src/controllers/borrowController.js:41-46 | appending a record adds one open loan exactly when it is a BORROWED record of the book |
| `BorrowModel.ActiveCountUpdate` | src/controllers/borrowController.js:80-88 | replacing a record changes the count by the difference between the old and the new record |
| `BorrowModel.SchemaAllowsDuplicateActiveLoans` | src/models/borrowModel.js:42 | a ledger whose every record passes the schema can still hold two BORROWED records for one pair, since the index is not unique |
| `UserModel.CastUser` | src/models/userModel.js:9-38 | the stored strings are trimmed, the email is lower case, and a missing role becomes MEMBER |
| `UserModel.CastEmail` | src/models/userModel.js:16-24 | the stored email is trimmed, lower case and as long (in code units) as the trimmed input |
| `UserModel.CastRole` | src/models/userModel.js:32-38 | the stored role is trimmed, and it is MEMBER when none is given |
| `UserModel.ValidUser` | src/models/userModel.js:7-41 | no ensures: the predicate every validator of the User schema accepts; `UserModel.AcceptsIff` states it on the submitted values and `UserModel.CastOfValid` shows a valid user is a fixed point of the setters |
| `UserModel.AcceptsIff` | src/models/userModel.js:9-38 | the schema accepts a user exactly when the trimmed name, email and password lie within 2-50, 5-254 and 8-128 UTF-16 code units and the upper-cased role is ADMIN or MEMBER |
| `UserModel.LowerCaseRoleAccepted` | src/models/userModel.js:32-38 | "admin" is stored as ADMIN |
| `UserModel.CastOfValid` | src/models/userModel.js:9-38 | a stored user is a fixed point of the setters |
| `UserModel.CastRoleOfValid` | src/models/userModel.js:32-38 | the role of a valid user is stored as it is (used by `UserModel.CastOfValid`) |
| `UserModel.EmailFixed` | src/models/userModel.js:16-24 | a trimmed lower-case email is stored as it is |
| `UserModel.RoleFixed` | src/models/userModel.js:32-38 | ADMIN and MEMBER are stored as they are |
| `UserModel.UniqueEmails` | src/models/userModel.js:18 | no ensures: the `unique: true` index on `email`; no modelled operation inserts users (sign-up is not part of this model), so no lemma uses it |
| `AuthMiddleware.FirstAbsent` | src/middlewares/authMiddleware.js:9-11 | the first listed field that is undefined or "", or None when there is none |
| `AuthMiddleware.CheckReqFields` | src/middlewares/authMiddleware.js:7-16 | null when every field is present; otherwise "<name> is required!" for the first absent field |
| `AuthMiddleware.ReqFieldsIff` | src/middlewares/authMiddleware.js:7-16 | with non-empty names, a message comes back exactly when some field is absent |
| `AuthMiddleware.StringTypeLengthCheck` | src/middlewares/authMiddleware.js:18-30 | null exactly when the field is a string whose trimmed `length` (UTF-16 code units) lies within the bounds; otherwise the text's length message |
| `AuthMiddleware.LengthCheckIgnoresPadding` | src/middlewares/authMiddleware.js:18-30 | whitespace around a string never changes the length check |
| `AuthMiddleware.ItemError` | src/middlewares/authMiddleware.js:45-59 | a bad type or length gives the length message; otherwise an email fails exactly when `isEmail` rejects it trimmed, and a password exactly when `isStrongPassword` does |
| `AuthMiddleware.ItemErrors` | src/middlewares/authMiddleware.js:36-44 | no ensures: the results of the email item and then the password item, in the order of the `forEach` list; `AuthMiddleware.CheckEmailPasswordValues` is proved against it |
| `AuthMiddleware.EmailPasswordError` | src/middlewares/authMiddleware.js:33-62 | no ensures: the last failure of the two items; `AuthMiddleware.PasswordErrorWins` and `AuthMiddleware.EmailErrorShows` state which one is reported, and `AuthMiddleware.CheckEmailPasswordValues` that the loop returns it |
| `AuthMiddleware.CheckEmailPasswordValues` | src/middlewares/authMiddleware.js:33-62 | the loop returns the last failure of the email and password items |
| `AuthMiddleware.PasswordErrorWins` | src/middlewares/authMiddleware.js:45-61 | a failing password is the reported message, whatever the email |
| `AuthMiddleware.EmailErrorShows` | src/middlewares/authMiddleware.js:45-61 | with a good password, the email's result is the reported one |
| `AuthMiddleware.Reject` | src/middlewares/authMiddleware.js:82-85 | a message becomes a 400 reply with it; no message passes on |
| `AuthMiddleware.SignupPayloadCheck` | src/middlewares/authMiddleware.js:65-95 | passes exactly when name, email and password are present, the name fits 2-50 and the email and password checks pass; otherwise 400 with the first missing field's message, else the name's length message, else the email-and-password message |
| `AuthMiddleware.LoginPayloadCheck` | src/middlewares/authMiddleware.js:98-122 | passes exactly when email and password are present and their checks pass; otherwise 400 with the first missing field's message, else the email-and-password message |
| `AuthMiddleware.SignupImpliesLogin` | src/middlewares/authMiddleware.js:65-122 | a body that passes signup also passes login |
| `AuthMiddleware.SignupNameFits` | src/middlewares/authMiddleware.js:65-95 | a signup that passes has string name, email and password whose trimmed lengths in code units meet the User schema's bounds |
| `BookMiddleware.AuthorizeUserRole` | src/middlewares/bookMiddleware.js:9-27 | passes exactly when the caller's role is in the allow list; otherwise 403 "Permission denied!" |
| `BookMiddleware.RolesOfStoredUsers` | src/middlewares/bookMiddleware.js:9-27 | every stored user passes `[ADMIN, MEMBER]`, and only admins pass `[ADMIN]` |
| `BookMiddleware.EmptyAllowListDenies` | src/middlewares/bookMiddleware.js:9 | the default empty list refuses every role |
| `BookMiddleware.CheckValidBookId` | src/middlewares/bookMiddleware.js:195-216 | passes exactly when the id is a 24-hex-digit string; otherwise 400 "Invlid book id!" |
| `BookMiddleware.ValidateStringFields` | src/middlewares/bookMiddleware.js:30-38 | always null, because the `return` inside the `forEach` callback only leaves the callback; every item is checked and its answer discarded |
| `BookMiddleware.FieldError` | src/middlewares/bookMiddleware.js:61-74 | a row whose key is not in the object contributes nothing; otherwise its length check |
| `BookMiddleware.FieldErrors` | src/middlewares/bookMiddleware.js:61-74 | one result per row of the table, in table order |
| `BookMiddleware.StringFieldsError` | src/middlewares/bookMiddleware.js:41-76 | no ensures: the last failing row of the length table; `BookMiddleware.StringFieldsOk` and `BookMiddleware.GenreErrorWins` state when there is one and which wins, and `BookMiddleware.CheckStringTypelength` that the loop returns it |
| `BookMiddleware.CheckStringTypelength` | src/middlewares/bookMiddleware.js:41-76 | the loop returns the last failing row among those whose key is present |
| `BookMiddleware.StringFieldsOk` | src/middlewares/bookMiddleware.js:41-76 | no message exactly when every present row is a string of allowed trimmed length |
| `BookMiddleware.GenreErrorWins` | src/middlewares/bookMiddleware.js:59-74 | a bad genre is the reported message, whatever else is wrong |
| `BookMiddleware.CheckIsbnPubDate` | src/middlewares/bookMiddleware.js:79-88 | a bad date gives the date message even with a bad isbn; a good date with a bad isbn gives the isbn message; both good gives null |
| `BookMiddleware.AddCopiesError` | src/middlewares/bookMiddleware.js:124-152 | a bad `availableCopies` is answered at once; otherwise more available than total copies gives the comparison's message, and failing that a bad `totalCopies` gives its own; no message exactly when both are numbers with 0 <= available <= total |
| `BookMiddleware.NegativeTotalReportsComparison` | src/middlewares/bookMiddleware.js:124-152 | a negative total is refused with the comparison's message, not the total's |
| `BookMiddleware.NullTotal` | src/middlewares/bookMiddleware.js:124-152 | a null total gives the total's message when nothing is free and the comparison's message otherwise |
| `BookMiddleware.AddBookPayloadCheck` | src/middlewares/bookMiddleware.js:91-175 | 401 with the missing field's message, then 401 with the string message, then 400 with the copy-count message, then 400 with the isbn or date message, each stage reached only when the earlier ones pass; passes exactly when all four stages pass |
| `BookMiddleware.AddStringValues` | src/middlewares/bookMiddleware.js:110-119 | no ensures: the object of title, author, isbn and genre built from the body; `BookMiddleware.AddStringFits` states what passing its check gives for each field |
| `BookMiddleware.AddPayloadFields` | src/middlewares/bookMiddleware.js:91-175 | a passing body has four strings within their rows' bounds and numeric counts with 0 <= available <= total |
| `BookMiddleware.AddStringFits` | src/middlewares/bookMiddleware.js:119-123 | without a string message, each of the four add fields fits its row |
| `BookMiddleware.AddPayloadMeetsSchema` | src/middlewares/bookMiddleware.js:91-175 | a body that passes the add checks, cast by the setters, is a document the Book schema accepts |
| `BookMiddleware.CheckIsEditabled` | src/middlewares/bookMiddleware.js:178-192 | null exactly when every key of the body is one of the seven book fields; otherwise "Invalid payload!" |
| `BookMiddleware.UpdateStringValues` | src/middlewares/bookMiddleware.js:224-230 | exactly the string keys the body has, with their values |
| `BookMiddleware.UpdateErrors` | src/middlewares/bookMiddleware.js:237-261 | five results, one per value check in source order; `BookMiddleware.UpdateBookPayloadCheck`, `UpdateWithoutDateRefused`, `ZeroTotalSkipsComparison` and `UpdateComparesCounts` state which message is reported |
| `BookMiddleware.UpdateBookPayloadCheck` | src/middlewares/bookMiddleware.js:218-275 | passes exactly when the keys are editable, the present strings fit, and none of the five value checks fails; otherwise 400 with "Invalid payload!" for a bad key, else the string message, else the last failing value check's message |
| `BookMiddleware.UpdateWithoutDateRefused` | src/middlewares/bookMiddleware.js:256-261 | an update without `publishedDate` is always refused with the date message |
| `BookMiddleware.ZeroTotalSkipsComparison` | src/middlewares/bookMiddleware.js:239-252 | for any body whose total is the number 0 and whose free count is a non-negative number, and for any isbn and date checkers, the first three value checks pass: a zero total is falsy, so the comparison is skipped |
| `BookMiddleware.UpdateComparesCounts` | src/middlewares/bookMiddleware.js:249-252 | with a positive total, an update asking for more free copies than the total is refused |
| `BorrowMiddleware.OrEmpty` | src/middlewares/borrowMiddleware.js:9 | the `""` default replaces `undefined` only, and keeps truthiness |
| `BorrowMiddleware.CheckUserNBookIds` | src/middlewares/borrowMiddleware.js:9-14 | null when either id is falsy; a throw when both are truthy and one does not cast; with well-formed ids, "Invalid bookId or userId!" exactly when the ObjectId of one of them is not found |
| `BorrowMiddleware.PayloadFormError` | src/middlewares/borrowMiddleware.js:22-34 | the missing userId's message, else the missing bookId's, else "Invalid UserID!", else "Invalid BookID!"; no message exactly when both ids are 24-hex-digit strings |
| `BorrowMiddleware.ValidateBorrowOrReturnPayload` | src/middlewares/borrowMiddleware.js:17-57 | passes exactly when both ids are well-formed and their ObjectIds are found; otherwise 400 with the form message, or with "Invalid bookId or userId!" when the ids are well-formed but one is not found |
| `BorrowMiddleware.MissingUserIdFirst` | src/middlewares/borrowMiddleware.js:22-34 | a missing userId is reported before anything about the bookId |
| `BorrowMiddleware.UserIdFormatFirst` | src/middlewares/borrowMiddleware.js:28-34 | a malformed userId is reported even when the bookId is malformed too |
| `BorrowMiddleware.PassedBorrowReachesHandler` | src/middlewares/borrowMiddleware.js:17-57 | after the middleware passes, the borrow handler never answers 500, and it refuses for lack of copies only when the book has none free |
| `BorrowMiddleware.PassedReturnReachesHandler` | src/middlewares/borrowMiddleware.js:17-57 | after the middleware passes, the return handler always replies and never with a 500 |
| `BorrowMiddleware.ValidateBorrowId` | src/middlewares/borrowMiddleware.js:60-80 | passes exactly when the id is well-formed; otherwise 400 "Invalid borrow ID!" |
| `BorrowMiddleware.ValidateViewBorrowHistoryPayload` | src/middlewares/borrowMiddleware.js:83-112 | passes exactly when the userId is well-formed and the user with its ObjectId exists; otherwise 400 "Invalid user ID!" |
| `BorrowMiddleware.PassedHistoryReachesHandler` | src/middlewares/borrowMiddleware.js:83-112 | a history request that passes is answered with the history, never a 500 |
| `Circulation.Shift` | src/controllers/borrowController.js:48-54 | only the free copies of the one book change, by the given amount |
| `Circulation.Borrow` | src/controllers/borrowController.js:9-72 | 500 for ids that do not cast, 409 for an existing BORROWED record of the ObjectIds, 409 when no copy is free, otherwise 200 (each case stated in both directions); on 200 one BORROWED record with the cast ids is appended and the book has one free copy fewer; on a refusal the stores are unchanged |
| `Circulation.BorrowRequest` | src/controllers/borrowController.js:13 | no ensures: the borrow handler on the ids taken from the body, 500 for a non-string id; `Circulation.BorrowIgnoresStatus` states that the `status` sent does not matter |
| `Circulation.BorrowIgnoresStatus` | src/controllers/borrowController.js:13 | the `status` sent in the body never changes what the borrow does |
| `Circulation.SecondOf` | src/controllers/borrowController.js:86 | `formatISO` drops the milliseconds: the second the time falls in |
| `Circulation.Close` | src/controllers/borrowController.js:86 | the record becomes RETURNED with the current second as its return date, and its ids and borrow date are kept |
| `Circulation.Return` | src/controllers/borrowController.js:75-120 | 500 for ids that do not cast, 409 without a BORROWED record of the ObjectIds, no reply for a deleted book, otherwise 200; the first open record of the pair is closed and the book gets one free copy back |
| `Circulation.BorrowIgnoresCase` | src/controllers/borrowController.js:15-22 | two spellings of the same ObjectIds make the same borrow |
| `Circulation.ReturnIgnoresCase` | src/controllers/borrowController.js:80-88 | two spellings of the same ObjectIds make the same return |
| `Circulation.Conserved` | src/controllers/borrowController.js:41-54 | no ensures: every book stays, with free plus lent copies unchanged; `Circulation.BorrowConserves` and `Circulation.ReturnConserves` prove it of each step, and `Circulation.ConservedKeepsBalance` that it keeps the balance |
| `Circulation.Wellformed` | src/models/bookModel.js:6-47 | no ensures: every book is stored under a stored-form ObjectId, with valid strings and counters at least 0; isbns are unique; every record has stored-form ids and is open exactly when it has no return date; no pair has two BORROWED records, which the check at src/controllers/borrowController.js:15-26 keeps; `Circulation.BorrowKeepsInvariants`, `ReturnKeepsInvariants`, `AddKeepsInvariants`, `UpdateKeepsWellformed` and `DeleteKeepsInvariants` state that each handler keeps it |
| `Circulation.Balanced` | src/controllers/borrowController.js:48-54 | no ensures: for every book, free plus lent copies are at most the total; borrow, return and delete keep it, add keeps it when no record names the new id, and `Circulation.UpdateThenReturnExceedsTotal` shows an update that breaks it |
| `Circulation.ShelfKeepsCatalog` | src/controllers/borrowController.js:48-54 | changing free counters only, with none below 0, keeps the catalog well-formed |
| `Circulation.ConservedKeepsBalance` | src/controllers/borrowController.js:48-54 | with the totals unchanged, conserving free plus lent copies keeps them within the total |
| `Circulation.OpenKeepsLedger` | src/controllers/borrowController.js:15-46 | a new BORROWED record for a pair without one keeps every pair at one open record at most |
| `Circulation.CloseKeepsLedger` | src/controllers/borrowController.js:80-88 | closing a record keeps the ledger well-formed |
| `Circulation.StoredBooksValid` | src/models/bookModel.js:36-47 | in well-formed, balanced stores every book passes the whole schema, including available <= total |
| `Circulation.BorrowConserves` | src/controllers/borrowController.js:41-54 | a borrow keeps free plus lent copies of every book |
| `Circulation.ReturnConserves` | src/controllers/borrowController.js:80-100 | a return keeps free plus lent copies of every book |
| `Circulation.BorrowKeepsInvariants` | src/controllers/borrowController.js:9-72 | a borrow keeps the stores well-formed and balanced |
| `Circulation.ReturnKeepsInvariants` | src/controllers/borrowController.js:75-120 | a return keeps the stores well-formed and balanced |
| `Circulation.BorrowThenReturn` | src/controllers/borrowController.js:9-120 | a borrow followed by the return of the same pair, in any spelling of its hex ids, answers 200 and restores the catalog; the ledger keeps one RETURNED record |
| `Circulation.BorrowTwiceRefused` | src/controllers/borrowController.js:15-26 | a second borrow of a pair holding a copy, in any spelling of its hex ids, is refused with 409 and changes nothing |
| `Circulation.ReturnDates` | src/models/borrowModel.js:21-29 | a return in a later second than every borrow keeps every record's return date after its borrow date |
| `Circulation.HistoryOf` | src/controllers/borrowController.js:126 | the user's records, each with its book populated (or null), at most as many as the ledger holds |
| `Circulation.HistoryConcat` | src/controllers/borrowController.js:126 | the history of two ledger parts is the concatenation of their histories |
| `Circulation.HistoryComplete` | src/controllers/borrowController.js:126 | every record of the user appears in the history with its book |
| `Circulation.History` | src/controllers/borrowController.js:123-141 | a 500 exactly when the userId does not cast; otherwise the history of the ObjectId it casts to |
| `Circulation.AddBook` | src/controllers/bookController.js:6-48 | 409 exactly when the trimmed isbn is taken, 500 when the cast document fails the schema, otherwise 200 with the cast document stored under the new id; a refusal changes nothing |
| `Circulation.UpdateBook` | src/controllers/bookController.js:51-81 | 500 for a bad id, 409 when no document has its ObjectId; otherwise 200 exactly when the merged document is valid and its isbn is not another book's, and then only that document changes |
| `Circulation.DeleteBook` | src/controllers/bookController.js:84-102 | 500 for a bad id, 409 when no document has its ObjectId, otherwise 200 with that document removed and the ledger untouched |
| `Circulation.AddKeepsInvariants` | src/controllers/bookController.js:6-48 | adding a book keeps the stores well-formed, and balanced when no record refers to the new id |
| `Circulation.InsertKeepsInvariants` | src/controllers/bookController.js:24-33 | inserting a valid document whose isbn is free keeps the stores well-formed and balanced |
| `Circulation.InsertKeepsUnique` | src/models/bookModel.js:20-27 | inserting a document whose isbn is not taken keeps isbns unique |
| `Circulation.UpdateKeepsWellformed` | src/controllers/bookController.js:51-81 | an update keeps the stores well-formed |
| `Circulation.ReplaceKeepsCatalog` | src/controllers/bookController.js:53-57 | replacing a document by a valid one whose isbn no other book carries keeps the catalog well-formed |
| `Circulation.ReplaceKeepsUnique` | src/models/bookModel.js:20-27 | replacing a document by one whose isbn no other book carries keeps isbns unique (used by `Circulation.ReplaceKeepsCatalog`) |
| `Circulation.DeleteKeepsInvariants` | src/controllers/bookController.js:84-102 | a delete keeps the stores well-formed and balanced |
| `Circulation.ReturnAfterDelete` | src/controllers/borrowController.js:96-110 | returning a loan of a deleted book closes the record but sends no reply |
| `Circulation.UpdateThenReturnExceedsTotal` | src/controllers/borrowController.js:96-100 | with a copy on loan, an admin update setting the free copies to the total is accepted and unbalances the stores, and the return then leaves total + 1 free copies |
| `Circulation.UpdateToTotal` | src/controllers/bookController.js:51-81 | setting the free copies of a stored book to its total passes the update's validators and changes only that counter |
| `Stores.Library.constructor` | src/models/borrowModel.js:17-20 | empty collections, well-formed and balanced; the borrow-date default is fixed when the schema is loaded |
| `Stores.Library.FindActive` | src/controllers/borrowController.js:15-22 | the loop finds the first BORROWED record of the pair, or none |
| `Stores.Library.Borrow` | src/controllers/borrowController.js:9-72 | the in-place borrow produces exactly the `Circulation.Borrow` reply and stores, and keeps the invariants |
| `Stores.Library.Return` | src/controllers/borrowController.js:75-120 | the in-place return produces exactly the `Circulation.Return` reply and stores, and keeps the invariants |
| `Stores.Library.History` | src/controllers/borrowController.js:123-141 | the loop produces exactly `Circulation.History` |
| `Stores.Library.AddBook` | src/controllers/bookController.js:6-48 | the in-place add produces exactly the `Circulation.AddBook` step and keeps the stores well-formed, and balanced when no ledger record names the new id |
| `Stores.Library.UpdateBook` | src/controllers/bookController.js:51-81 | the in-place update produces exactly the `Circulation.UpdateBook` step and keeps the stores well-formed |
| `Stores.Library.DeleteBook` | src/controllers/bookController.js:84-102 | the in-place delete produces exactly the `Circulation.DeleteBook` step and keeps the invariants |
| `BookQuery.SplitComma` | src/controllers/bookController.js:134 | `split(",")` yields at least one piece |
| `BookQuery.SplitCommaPieces` | src/controllers/bookController.js:134 | the pieces hold no comma, and there is more than one exactly when the string holds a comma |
| `BookQuery.JoinSplit` | src/controllers/bookController.js:134 | joining the pieces with commas gives the string back |
| `BookQuery.JoinEmptyHead` | src/controllers/bookController.js:134 | joining with an empty first piece puts a comma in front of the join of the rest (used by `BookQuery.JoinSplit`) |
| `BookQuery.JoinExtendHead` | src/controllers/bookController.js:134 | a character in front of the first piece comes first in the join (used by `BookQuery.JoinSplit`) |
| `BookQuery.SplitJoin` | src/controllers/bookController.js:134 | splitting the comma-join of comma-free pieces gives the pieces back |
| `BookQuery.SplitPrefix` | src/controllers/bookController.js:134 | a comma-free piece followed by a comma starts the split with that piece |
| `BookQuery.SplitPrefix1` | src/controllers/bookController.js:134 | a comma-free string splits into itself alone (used by `BookQuery.SplitJoin`) |
| `BookQuery.TrimAll` | src/controllers/bookController.js:134 | every piece is trimmed, in order |
| `BookQuery.NormalizeGenre` | src/controllers/bookController.js:132-135 | a string genre whose trimmed text has no comma becomes that trimmed text; one whose trimmed text has a comma becomes an array of at least two pieces, and only then is the result an array |
| `BookQuery.CommaGenre` | src/controllers/bookController.js:132-135 | a comma-separated genre list becomes the array of its trimmed names |
| `BookQuery.JoinHasComma` | src/controllers/bookController.js:134 | the join of two or more pieces holds a comma (used by `BookQuery.CommaGenre`) |
| `BookQuery.GenreValid` | src/controllers/bookController.js:118-120 | no ensures: `isGenreValid`: a string that is not blank once trimmed, or a non-empty array; `BookQuery.PrepareFilterQuery` and `FilterClauses` state that the genre clause is present exactly when it holds |
| `BookQuery.PrepareFilterQuery` | src/controllers/bookController.js:105-125 | throws exactly when a truthy title or author is not a string; otherwise a title clause, then an author clause, then a genre clause, each when its parameter asks for it, and `{}` exactly when none does |
| `BookQuery.FilterClauses` | src/controllers/bookController.js:105-125 | each clause is present exactly when its parameter asks for it, with the trimmed text, in the order title, author, genre |
| `BookQuery.OptClauses` | src/controllers/bookController.js:106-123 | optional clauses of increasing rank (`RankIncreasing`: title before author before genre) keep their order and are present exactly when asked for |
| `BookQuery.EffectiveLimit` | src/controllers/bookController.js:140-145 | between 1 and 50: the parsed value when positive, capped at 50, else 50 |
| `BookQuery.EffectivePage` | src/controllers/bookController.js:146-147 | the parsed value when positive, else 1 |
| `BookQuery.Offset` | src/controllers/bookController.js:148 | at least 0, zero exactly on the first page, and offset + limit = page * limit |
| `BookQuery.LimitOfNumeral` | src/controllers/bookController.js:140-145 | a numeral from 1 to 50 is taken as it is, 0 gives 50, and larger ones are capped at 50 |
| `BookQuery.PageOfNumeral` | src/controllers/bookController.js:146-147 | a positive numeral is the page, and 0 gives page 1 |
| `BookQuery.MissingPaging` | src/controllers/bookController.js:139-148 | with no paging parameters, the limit is 50, the page 1 and the offset 0 |
| `BookQuery.ViewBooksQuery` | src/controllers/bookController.js:128-149 | a listing that does not throw has an offset of at least 0 and a limit between 1 and 50 |
| `Reports.BumpCounts` | src/controllers/reportsController.js:15 | counting one more record adds one to that key's group (creating it when new), keeps groups distinct and positive, and adds one to the sum |
| `Reports.HasIdCons` | src/controllers/reportsController.js:15 | a list with one more group in front has exactly that key more (used by `Reports.BumpCounts`, `InsertKeys` and `SortKeys`) |
| `Reports.DistinctCons` | src/controllers/reportsController.js:15 | a list with one more group in front is distinct exactly when the rest is and lacks that key (used by `Reports.BumpCounts`, `InsertKeys` and `SortKeys`) |
| `Reports.TalliesOf` | src/controllers/reportsController.js:15 | no ensures: `$group` by key, counting the records of each key; `Reports.TalliesOfCorrect` states its contract |
| `Reports.TalliesOfCorrect` | src/controllers/reportsController.js:15 | `$group` gives one positive group per key that occurs, with its number of occurrences, totals adding up to the number of records |
| `Reports.TallyAt` | src/controllers/reportsController.js:15 | in distinct groups, a key's tally is its group's total |
| `Reports.Insert` | src/controllers/reportsController.js:16 | inserting into a list sorted by decreasing total keeps it sorted and is a permutation plus the new group |
| `Reports.InsertKeys` | src/controllers/reportsController.js:16 | insertion adds exactly the new key, keeps keys distinct and adds its total to the sum |
| `Reports.ConsSorted` | src/controllers/reportsController.js:16 | a group no smaller than the head can be put in front of a sorted list |
| `Reports.SortDesc` | src/controllers/reportsController.js:16 | `$sort: { totalBorrows: -1 }` gives groups in non-increasing order, a permutation of its input |
| `Reports.SortKeys` | src/controllers/reportsController.js:16 | sorting keeps the set of keys, their distinctness and the sum |
| `Reports.Ranking` | src/controllers/reportsController.js:15-16 | no ensures: group then sort; `Reports.RankingCorrect` states its contract |
| `Reports.RankingCorrect` | src/controllers/reportsController.js:15-16 | group then sort gives one group per key, with its count, in non-increasing order, the totals adding up to the number of records |
| `Reports.BookIds` | src/controllers/reportsController.js:15 | the `bookId` of each record, in ledger order |
| `Reports.UserIds` | src/controllers/reportsController.js:58 | the `userId` of each record, in ledger order |
| `Reports.JoinBook` | src/controllers/reportsController.js:17-32 | the row keeps the total and the id, and carries the book exactly when the catalog holds it |
| `Reports.JoinBooks` | src/controllers/reportsController.js:17-32 | one joined row per group, in order |
| `Reports.MostBorrowedBooks` | src/controllers/reportsController.js:14-34 | no ensures: the ranking of book ids joined with the catalog; `Reports.MostBorrowedBooksCorrect` states its contract |
| `Reports.MostBorrowedBooksCorrect` | src/controllers/reportsController.js:14-34 | one row per borrowed book, once each, counting its records, in non-increasing order, with the raw id kept exactly for a book missing from the catalog; the counts add up to the ledger's length |
| `Reports.RankedBookRows` | src/controllers/reportsController.js:17-32 | joining a ranking with the books keeps its order, distinct ids, counts and coverage |
| `Reports.JoinBooksTotal` | src/controllers/reportsController.js:17-32 | the rows' totals add up to the groups' sum |
| `Reports.JoinUser` | src/controllers/reportsController.js:60-68 | the row keeps the total and carries the user exactly when it is found |
| `Reports.JoinUsers` | src/controllers/reportsController.js:60-68 | one joined row per group, in order |
| `Reports.MostActiveMembers` | src/controllers/reportsController.js:57-70 | no ensures: the ranking of user ids joined with the users; `Reports.MostActiveMembersCorrect` states its contract |
| `Reports.MostActiveMembersCorrect` | src/controllers/reportsController.js:57-70 | one row per user with records, in non-increasing order of record counts; a user still stored appears once, with its count |
| `Reports.RankedMemberRows` | src/controllers/reportsController.js:60-68 | joining a ranking with the users keeps its order, positive counts, distinct users and coverage |
| `Reports.AvailabilitySummary` | src/controllers/reportsController.js:90-115 | zeros for an empty collection; otherwise the sums of total and free copies, and borrowed = total - free |
| `Reports.SummaryBounds` | src/controllers/reportsController.js:90-115 | over valid books, 0 <= available <= total and 0 <= borrowed <= total |
| `Reports.SumsAppend` | src/controllers/reportsController.js:92-96 | each document adds its own counts to the sums |
| `Reports.SummaryAppend` | src/controllers/reportsController.js:90-108 | one more document adds its total, its free copies and its lent copies to the summary |

## Left out

- The add-book and borrow/return middlewares pass objects to `checkReqFields` where it expects a list of names (src/middlewares/bookMiddleware.js:95-104, src/middlewares/borrowMiddleware.js:22-27). In JavaScript the `.find` call then throws, and as written those routes answer 500. The model instead passes the objects' keys as the list of names, which is the evident intent.
- BookMiddleware.AddBookPayloadCheck: it takes the required list as the key names, not the object the source passes, so it does not reproduce the 500 that the `.find` call on an object would cause.
- BorrowMiddleware.ValidateBorrowOrReturnPayload: it also takes the key names as the required list, and does not reproduce the 500 of the `.find` call on an object.
- BorrowMiddleware.CheckUserNBookIds: a truthy id that does not cast is modelled as a thrown error, without the text of the cast error.
- Circulation.BorrowRequest: only string ids are modelled; any other value is taken to fail the ObjectId cast. How Mongoose treats an `undefined` filter value is not modelled.
- ObjectId instances in a request are not modelled: ids arrive as JSON strings, and `isObjectIdOrHexString` is modelled on strings only.
- The texts of Mongoose errors are abstracted: a failed cast is "Cast to ObjectId failed", a failed validation "Book validation failed", and a duplicate isbn "E11000 duplicate key error". Which paths failed is not modelled.
- Circulation.UpdateBook: the update of `findByIdAndUpdate` with `runValidators` is checked as the whole merged document passing the schema. Mongoose's per-path update validators are not modelled, and neither is the `this` of the `availableCopies` validator inside an update. The order differs too: Mongoose runs the update validators before the query reaches the collection, so an invalid update of an unknown id answers 500 there, while the model looks the document up first and answers 409. This changes two observable answers. First, inside an update the validator's `this` is not the document, so `!(value > this.totalCopies)` holds: on a book with 5 copies, a body with `availableCopies: 7` and a `publishedDate` but no `totalCopies` passes the middleware (which compares only when `totalCopies` is truthy) and is stored with a 200 in the source, while the model answers 500 "Book validation failed". Second, the update validators check only the paths the update sets: a stored book with more free copies than copies, which `UpdateThenReturnExceedsTotal` shows is reachable, can still have its title updated in the source, while the model refuses that update with 500.
- Circulation.AddBook: the isbn lookup is modelled as going through the schema's `trim` setter, like the stored value.
- Numbers are integers: NaN, fractions, exponents and `Infinity` are not modelled. Case mapping covers ASCII letters only, and characters are compared by code point. Strings are sequences of Unicode scalar values, so lone UTF-16 surrogates are not modelled; lengths are counted in UTF-16 code units, as JavaScript counts them.
- Matching of the `$regex` clauses is not modelled; only the filter's construction, the skip and the limit are.
- The database's internal join mechanics, the order of groups with equal totals, and the `_id` projection of the report rows are not modelled. An absent user in a member row is `None`.
- `Reports.AvailabilitySummary` is taken over a sequence of book documents rather than the catalog map.
- The `data` payloads of replies, such as the saved document and the history list, are not modelled beyond the history.
- The id the driver generates for a new document is a parameter of `AddBook`, required to be in the stored form: 24 lower-case hex digits.
- Stores.Library.AddBook: the balance is preserved only if no ledger record already refers to the new id. A freshly generated ObjectId does not occur in the ledger, and the model does not capture that freshness.
- Concurrency is out of scope: each handler runs as one atomic step, and races between a lookup and its update are not modelled.
- The logger, `sendResponse`, the routes and the Express wiring are out of scope.
- The external predicates are parameters: `isEmail`, `isStrongPassword`, `isISBN` and the parsing of date strings.
- `userAuthMiddleware`, the JWT and bcrypt handling and `authController` are not part of this model. Neither are the second pair of schema files (`src/models/user.js`, `src/models/borrow.js`) or which helpers the module exports.
- How a passing body becomes the handler's arguments is modelled only for the add route (`AddPayloadMeetsSchema`) and for the ids of the borrow, return and history routes.
