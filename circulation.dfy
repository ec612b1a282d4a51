/**
 * What the borrow, return, history and catalog handlers do to the two stores,
 * as functions from the state before a request to the reply and the state
 * after it. The `Stores.Library` class carries out the same steps in place;
 * the lemmas here are the properties of the stores those steps keep.
 */
module Circulation {
  import opened Js
  import opened Common
  import opened BookModel
  import opened BorrowModel

  /** The book catalog (document id to book) and the borrow ledger, in insertion order. */
  datatype Db = Db(books: map<Id, Book>, loans: seq<Loan>)

  /** The reply a handler sends and the stores it leaves behind. */
  datatype Step<R> = Step(reply: R, post: Db)

  const AlreadyBorrowed: string := "Already borrowed the book!"
  const NotAvailable: string := "Book is not available!"
  const BorrowDone: string := "Successfully borrowed the book!"
  const RecordNotFound: string := "Borrowed record not found!"
  const ReturnDone: string := "Successfully returned the book!"

  /**
   * Both ids can be cast to ObjectIds; otherwise the first query throws. The
   * queries then match the ObjectIds the ids cast to, that is `Canon` of each.
   */
  predicate IdsCast(userId: Id, bookId: Id) {
    IsObjectIdHex(userId) && IsObjectIdHex(bookId)
  }

  /** `findOne({ $and: [{ _id: bookId }, { availableCopies: { $gt: 0 } }] })` finds the book. */
  predicate CanLend(books: map<Id, Book>, bookId: Id) {
    bookId in books && books[bookId].availableCopies > 0
  }

  /** The catalog differs at most in the `availableCopies` counters. */
  predicate SameShelf(pre: map<Id, Book>, post: map<Id, Book>) {
    && post.Keys == pre.Keys
    && forall b | b in pre :: post[b] == pre[b].(availableCopies := post[b].availableCopies)
  }

  /** For every book of the catalog, free copies plus BORROWED records of it are as before. */
  predicate Conserved(pre: Db, post: Db) {
    forall b | b in pre.books ::
      b in post.books &&
      post.books[b].availableCopies + ActiveCount(post.loans, b)
      == pre.books[b].availableCopies + ActiveCount(pre.loans, b)
  }

  /** The catalog with one more or one fewer free copy of a book. */
  function Shift(books: map<Id, Book>, bookId: Id, delta: int): (r: map<Id, Book>)
    requires bookId in books
    ensures SameShelf(books, r)
    ensures r[bookId].availableCopies == books[bookId].availableCopies + delta
    ensures forall b | b in books && b != bookId :: r[b] == books[b]
  {
    books[bookId := books[bookId].(availableCopies := books[bookId].availableCopies + delta)]
  }

  /**
   * `borrowBookController` on the ids of the body: the duplicate check, then
   * the availability check, then a new BORROWED record dated `loadTime` (the
   * schema's default, fixed when the schema was defined) and one copy fewer.
   */
  function Borrow(db: Db, loadTime: int, userId: Id, bookId: Id): (s: Step<Reply>)
    ensures !IdsCast(userId, bookId) <==> s.reply == Reply(500, CastFailed)
    ensures s.reply == Reply(409, AlreadyBorrowed) <==>
      IdsCast(userId, bookId) && HasActive(db.loans, Canon(userId), Canon(bookId))
    ensures s.reply == Reply(409, NotAvailable) <==>
      IdsCast(userId, bookId) && !HasActive(db.loans, Canon(userId), Canon(bookId)) && !CanLend(db.books, Canon(bookId))
    ensures s.reply.status == 200 <==>
      IdsCast(userId, bookId) && !HasActive(db.loans, Canon(userId), Canon(bookId)) && CanLend(db.books, Canon(bookId))
    ensures s.reply.status != 200 ==> s.post == db
    ensures s.reply.status == 200 ==>
      && s.reply.message == BorrowDone
      && s.post.loans == db.loans + [Loan(Canon(userId), Canon(bookId), Borrowed, loadTime, None)]
      && Canon(bookId) in db.books
      && SameShelf(db.books, s.post.books)
      && s.post.books[Canon(bookId)].availableCopies == db.books[Canon(bookId)].availableCopies - 1
      && forall b | b in db.books && b != Canon(bookId) :: s.post.books[b] == db.books[b]
  {
    var u, b := Canon(userId), Canon(bookId);
    if !IdsCast(userId, bookId) then Step(Reply(500, CastFailed), db)
    else if HasActive(db.loans, u, b) then Step(Reply(409, AlreadyBorrowed), db)
    else if !CanLend(db.books, b) then Step(Reply(409, NotAvailable), db)
    else
      Step(Reply(200, BorrowDone),
           Db(Shift(db.books, b, -1), db.loans + [Loan(u, b, Borrowed, loadTime, None)]))
  }

  /**
   * The route reads `userId` and `bookId` from the body; its `status` is never
   * looked at. Only string ids are modelled: any other value is taken to fail
   * the ObjectId cast.
   */
  function BorrowRequest(db: Db, loadTime: int, body: Body): Step<Reply> {
    match (Get(body, "userId"), Get(body, "bookId"))
    case (Str(userId), Str(bookId)) => Borrow(db, loadTime, userId, bookId)
    case _ => Step(Reply(500, CastFailed), db)
  }

  /** Whatever `status` the client sends, the request does the same. */
  lemma BorrowIgnoresStatus(db: Db, loadTime: int, body: Body, status: Value)
    ensures BorrowRequest(db, loadTime, body["status" := status]) == BorrowRequest(db, loadTime, body)
  {
    assert Get(body["status" := status], "userId") == Get(body, "userId");
    assert Get(body["status" := status], "bookId") == Get(body, "bookId");
  }

  /** `formatISO(new Date())` keeps whole seconds only. */
  function SecondOf(now: int): (t: int)
    ensures t <= now < t + 1000
    ensures t % 1000 == 0
  {
    now - now % 1000
  }

  /** The `findOneAndUpdate` update: `{ status: RETURNED, returnedDate }`. */
  function Close(l: Loan, now: int): (r: Loan)
    ensures r.status == Returned && r.returnedDate == Some(SecondOf(now))
    ensures r.userId == l.userId && r.bookId == l.bookId && r.borrowedDate == l.borrowedDate
  {
    l.(status := Returned, returnedDate := Some(SecondOf(now)))
  }

  /**
   * `returnBookController`: close the first BORROWED record of the pair, then
   * put one copy back. When the book is no longer in the catalog the record is
   * closed all the same and no reply is sent (`None`).
   */
  function Return(db: Db, userId: Id, bookId: Id, now: int): (s: Step<Option<Reply>>)
    ensures !IdsCast(userId, bookId) <==> s.reply == Some(Reply(500, CastFailed))
    ensures s.reply == Some(Reply(409, RecordNotFound)) <==>
      IdsCast(userId, bookId) && !HasActive(db.loans, Canon(userId), Canon(bookId))
    ensures s.reply.None? <==>
      IdsCast(userId, bookId) && HasActive(db.loans, Canon(userId), Canon(bookId)) && Canon(bookId) !in db.books
    ensures s.reply == Some(Reply(200, ReturnDone)) <==>
      IdsCast(userId, bookId) && HasActive(db.loans, Canon(userId), Canon(bookId)) && Canon(bookId) in db.books
    ensures (s.reply.Some? && s.reply.value.status != 200) ==> s.post == db
    ensures (s.reply.None? || s.reply.value.status == 200) ==>
      && ActiveIndex(db.loans, Canon(userId), Canon(bookId)).Some?
      && var k := ActiveIndex(db.loans, Canon(userId), Canon(bookId)).value;
      && s.post.loans == db.loans[k := Close(db.loans[k], now)]
      && SameShelf(db.books, s.post.books)
      && (forall b | b in db.books && b != Canon(bookId) :: s.post.books[b] == db.books[b])
      && (Canon(bookId) in db.books ==>
            s.post.books[Canon(bookId)].availableCopies == db.books[Canon(bookId)].availableCopies + 1)
  {
    var u, b := Canon(userId), Canon(bookId);
    if !IdsCast(userId, bookId) then Step(Some(Reply(500, CastFailed)), db)
    else
      match ActiveIndex(db.loans, u, b)
      case None => Step(Some(Reply(409, RecordNotFound)), db)
      case Some(k) =>
        var loans := db.loans[k := Close(db.loans[k], now)];
        if b in db.books then
          Step(Some(Reply(200, ReturnDone)), Db(Shift(db.books, b, 1), loans))
        else
          Step(None, Db(db.books, loans))
  }

  /** Ids that cast to the same ObjectId make the same borrow. */
  lemma BorrowIgnoresCase(db: Db, loadTime: int, userId: Id, bookId: Id, userId2: Id, bookId2: Id)
    requires Canon(userId2) == Canon(userId) && Canon(bookId2) == Canon(bookId)
    ensures Borrow(db, loadTime, userId2, bookId2) == Borrow(db, loadTime, userId, bookId)
  {
  }

  /** Ids that cast to the same ObjectId make the same return. */
  lemma ReturnIgnoresCase(db: Db, userId: Id, bookId: Id, userId2: Id, bookId2: Id, now: int)
    requires Canon(userId2) == Canon(userId) && Canon(bookId2) == Canon(bookId)
    ensures Return(db, userId2, bookId2, now) == Return(db, userId, bookId, now)
  {
  }

  // ---------------------------------------------------------------------------
  // Invariants of the stores

  /** A ledger record's references are stored ObjectIds, and it is open exactly when it has no return date. */
  predicate RecordShape(l: Loan) {
    IsCanonicalId(l.userId) && IsCanonicalId(l.bookId) && (l.status == Borrowed <==> l.returnedDate.None?)
  }

  /**
   * What every handler keeps: catalog documents pass the string validators and
   * the `min: 0` checks, isbns are unique, ledger records are well-shaped and
   * no pair has two BORROWED records.
   */
  predicate Wellformed(db: Db) {
    CatalogOk(db.books) && LedgerOk(db.loans)
  }

  predicate CatalogOk(books: map<Id, Book>) {
    && (forall b | b in books :: StoredOk(b, books[b]))
    && UniqueIsbns(books)
  }

  /** A stored document: an ObjectId key, valid strings and counters at least 0. */
  predicate StoredOk(id: Id, b: Book) {
    IsCanonicalId(id) && FieldsValid(b) && b.totalCopies >= 0 && b.availableCopies >= 0
  }

  predicate LedgerOk(loans: seq<Loan>) {
    && (forall i | 0 <= i < |loans| :: RecordShape(loans[i]))
    && AtMostOneActive(loans)
  }

  /** A change of free-copy counters that leaves them at least 0 keeps the catalog well-formed. */
  lemma ShelfKeepsCatalog(pre: map<Id, Book>, post: map<Id, Book>)
    requires CatalogOk(pre) && SameShelf(pre, post)
    requires forall b | b in post :: post[b].availableCopies >= 0
    ensures CatalogOk(post)
  {
    forall b | b in post
      ensures post[b].isbn == pre[b].isbn && FieldsValid(post[b])
    {
      assert post[b] == pre[b].(availableCopies := post[b].availableCopies);
    }
  }

  /** For the same totals, conserving free plus lent copies keeps the balance. */
  lemma ConservedKeepsBalance(pre: Db, post: Db)
    requires Conserved(pre, post) && SameShelf(pre.books, post.books) && Balanced(pre)
    ensures Balanced(post)
  {
    forall b | b in post.books
      ensures post.books[b].availableCopies + ActiveCount(post.loans, b) <= post.books[b].totalCopies
    {
      assert post.books[b].totalCopies == pre.books[b].totalCopies;
    }
  }

  /** Recording a new BORROWED loan for a pair that has none keeps the ledger well-formed. */
  lemma OpenKeepsLedger(loans: seq<Loan>, l: Loan)
    requires LedgerOk(loans) && RecordShape(l) && l.status == Borrowed
    requires !HasActive(loans, l.userId, l.bookId)
    ensures LedgerOk(loans + [l])
  {
    var post := loans + [l];
    var n := |loans|;
    assert forall i | 0 <= i < n :: post[i] == loans[i];
    assert post[n] == l;
    assert forall i | 0 <= i < n :: !ActiveFor(loans[i], l.userId, l.bookId);
  }

  /** Closing a record keeps the ledger well-formed. */
  lemma CloseKeepsLedger(loans: seq<Loan>, k: nat, now: int)
    requires LedgerOk(loans) && k < |loans|
    ensures LedgerOk(loans[k := Close(loans[k], now)])
  {
    var post := loans[k := Close(loans[k], now)];
    assert forall i | 0 <= i < |loans| && i != k :: post[i] == loans[i];
    assert RecordShape(post[k]);
  }

  /** Free copies and copies out on loan never exceed the total. */
  predicate Balanced(db: Db) {
    forall b | b in db.books ::
      db.books[b].availableCopies + ActiveCount(db.loans, b) <= db.books[b].totalCopies
  }

  /** The upper bound `availableCopies <= totalCopies` follows from the balance. */
  lemma StoredBooksValid(db: Db)
    requires Wellformed(db) && Balanced(db)
    ensures forall b | b in db.books :: ValidBook(db.books[b])
  {
    forall b | b in db.books
      ensures ValidBook(db.books[b])
    {
      assert db.books[b].availableCopies + ActiveCount(db.loans, b) <= db.books[b].totalCopies;
    }
  }

  lemma BorrowConserves(db: Db, loadTime: int, userId: Id, bookId: Id)
    ensures Conserved(db, Borrow(db, loadTime, userId, bookId).post)
  {
    var s := Borrow(db, loadTime, userId, bookId);
    if s.reply.status == 200 {
      forall b | b in db.books
        ensures s.post.books[b].availableCopies + ActiveCount(s.post.loans, b)
             == db.books[b].availableCopies + ActiveCount(db.loans, b)
      {
        ActiveCountAppend(db.loans, Loan(Canon(userId), Canon(bookId), Borrowed, loadTime, None), b);
      }
    }
  }

  lemma ReturnConserves(db: Db, userId: Id, bookId: Id, now: int)
    ensures Conserved(db, Return(db, userId, bookId, now).post)
  {
    var s := Return(db, userId, bookId, now);
    if s.reply.None? || s.reply.value.status == 200 {
      var k := ActiveIndex(db.loans, Canon(userId), Canon(bookId)).value;
      forall b | b in db.books
        ensures s.post.books[b].availableCopies + ActiveCount(s.post.loans, b)
             == db.books[b].availableCopies + ActiveCount(db.loans, b)
      {
        ActiveCountUpdate(db.loans, k, Close(db.loans[k], now), b);
      }
    }
  }

  lemma BorrowKeepsInvariants(db: Db, loadTime: int, userId: Id, bookId: Id)
    requires Wellformed(db)
    ensures Wellformed(Borrow(db, loadTime, userId, bookId).post)
    ensures Balanced(db) ==> Balanced(Borrow(db, loadTime, userId, bookId).post)
  {
    var s := Borrow(db, loadTime, userId, bookId);
    if s.reply.status == 200 {
      CanonCases(userId);
      CanonCases(bookId);
      OpenKeepsLedger(db.loans, Loan(Canon(userId), Canon(bookId), Borrowed, loadTime, None));
      ShelfKeepsCatalog(db.books, s.post.books);
      BorrowConserves(db, loadTime, userId, bookId);
      if Balanced(db) {
        ConservedKeepsBalance(db, s.post);
      }
    }
  }

  lemma ReturnKeepsInvariants(db: Db, userId: Id, bookId: Id, now: int)
    requires Wellformed(db)
    ensures Wellformed(Return(db, userId, bookId, now).post)
    ensures Balanced(db) ==> Balanced(Return(db, userId, bookId, now).post)
  {
    var s := Return(db, userId, bookId, now);
    if s.reply.None? || s.reply.value.status == 200 {
      var k := ActiveIndex(db.loans, Canon(userId), Canon(bookId)).value;
      CloseKeepsLedger(db.loans, k, now);
      ShelfKeepsCatalog(db.books, s.post.books);
      ReturnConserves(db, userId, bookId, now);
      if Balanced(db) {
        ConservedKeepsBalance(db, s.post);
      }
    }
  }

  /**
   * Borrowing and then returning the same pair, in any spelling of its ids,
   * puts the catalog back as it was.
   */
  lemma BorrowThenReturn(db: Db, loadTime: int, userId: Id, bookId: Id, userId2: Id, bookId2: Id, now: int)
    requires Borrow(db, loadTime, userId, bookId).reply.status == 200
    requires Canon(userId2) == Canon(userId) && Canon(bookId2) == Canon(bookId)
    ensures var s := Return(Borrow(db, loadTime, userId, bookId).post, userId2, bookId2, now);
      && s.reply == Some(Reply(200, ReturnDone))
      && s.post.books == db.books
      && s.post.loans == db.loans + [Loan(Canon(userId), Canon(bookId), Returned, loadTime, Some(SecondOf(now)))]
  {
    var mid := Borrow(db, loadTime, userId, bookId).post;
    var u, b := Canon(userId), Canon(bookId);
    var n := |db.loans|;
    assert ActiveFor(mid.loans[n], u, b);
    ReturnIgnoresCase(mid, userId, bookId, userId2, bookId2, now);
    var k := ActiveIndex(mid.loans, u, b).value;
    assert k == n;
    var s := Return(mid, userId, bookId, now);
    assert s.post.books == db.books;
  }

  /** A second borrow of a pair that holds a copy, in any spelling of its ids, is refused and changes nothing. */
  lemma BorrowTwiceRefused(db: Db, loadTime: int, userId: Id, bookId: Id, userId2: Id, bookId2: Id)
    requires Borrow(db, loadTime, userId, bookId).reply.status == 200
    requires Canon(userId2) == Canon(userId) && Canon(bookId2) == Canon(bookId)
    ensures var mid := Borrow(db, loadTime, userId, bookId).post;
      Borrow(mid, loadTime, userId2, bookId2) == Step(Reply(409, AlreadyBorrowed), mid)
  {
    var mid := Borrow(db, loadTime, userId, bookId).post;
    assert ActiveFor(mid.loans[|db.loans|], Canon(userId), Canon(bookId));
    BorrowIgnoresCase(mid, loadTime, userId, bookId, userId2, bookId2);
  }

  /**
   * `findOneAndUpdate` runs no validators, so the return date is not checked
   * against the borrow date; it is later than the borrow date whenever the
   * return happens in a later second than every borrow.
   */
  lemma ReturnDates(db: Db, userId: Id, bookId: Id, now: int)
    requires forall i | 0 <= i < |db.loans| :: ValidLoan(db.loans[i]) && SecondOf(now) > db.loans[i].borrowedDate
    ensures var post := Return(db, userId, bookId, now).post;
      forall i | 0 <= i < |post.loans| :: ValidLoan(post.loans[i])
  {
    var s := Return(db, userId, bookId, now);
    if s.reply.None? || s.reply.value.status == 200 {
      var k := ActiveIndex(db.loans, Canon(userId), Canon(bookId)).value;
      assert forall i | 0 <= i < |db.loans| && i != k :: s.post.loans[i] == db.loans[i];
    }
  }

  // ---------------------------------------------------------------------------
  // History

  /** A ledger record with its `bookId` populated: the book, or null once it is deleted. */
  datatype Entry = Entry(loan: Loan, book: Option<Book>)

  function Populate(books: map<Id, Book>, l: Loan): Entry {
    Entry(l, if l.bookId in books then Some(books[l.bookId]) else None)
  }

  /** `BorrowModel.find({ userId }).populate("bookId")`, in ledger order. */
  function HistoryOf(loans: seq<Loan>, books: map<Id, Book>, userId: Id): (h: seq<Entry>)
    ensures |h| <= |loans|
    ensures forall k | 0 <= k < |h| ::
      h[k].loan in loans && h[k].loan.userId == userId && h[k] == Populate(books, h[k].loan)
  {
    if loans == [] then []
    else
      var last := loans[|loans| - 1];
      HistoryOf(loans[..|loans| - 1], books, userId) + (if last.userId == userId then [Populate(books, last)] else [])
  }

  /** The history of a ledger is the history of its first part followed by that of the rest. */
  lemma {:induction false} HistoryConcat(a: seq<Loan>, b: seq<Loan>, books: map<Id, Book>, userId: Id)
    ensures HistoryOf(a + b, books, userId) == HistoryOf(a, books, userId) + HistoryOf(b, books, userId)
  {
    if b == [] {
      assert a + b == a;
    } else {
      var n := |b|;
      assert (a + b)[..|a + b| - 1] == a + b[..n - 1];
      assert (a + b)[|a + b| - 1] == b[n - 1];
      HistoryConcat(a, b[..n - 1], books, userId);
    }
  }

  /** Every record of the user shows up in the history, with its book. */
  lemma {:induction false} HistoryComplete(loans: seq<Loan>, books: map<Id, Book>, userId: Id, i: nat)
    requires i < |loans| && loans[i].userId == userId
    ensures Populate(books, loans[i]) in HistoryOf(loans, books, userId)
  {
    var n := |loans|;
    if i < n - 1 {
      assert loans[..n - 1][i] == loans[i];
      HistoryComplete(loans[..n - 1], books, userId, i);
    }
  }

  /**
   * `viewBorrowHistoryController`; `None` is the 500 reply of a failed ObjectId
   * cast. The records are those of the ObjectId the id casts to.
   */
  function History(db: Db, userId: Id): (r: Option<seq<Entry>>)
    ensures r.None? <==> !IsObjectIdHex(userId)
    ensures r.Some? ==> r.value == HistoryOf(db.loans, db.books, Canon(userId))
  {
    if IsObjectIdHex(userId) then Some(HistoryOf(db.loans, db.books, Canon(userId))) else None
  }

  // ---------------------------------------------------------------------------
  // The catalog handlers

  const BookExists: string := "Book already exists!"
  const BookAdded: string := "Successfully added book details!"
  const BookNotFound: string := "Book not found!"
  const BookUpdated: string := "Successfully updated book details!"
  const BookDeleted: string := "Successfully deleted book!"
  /** The message of a Mongoose validation error (the failing paths are not modelled). */
  const ValidationFailed: string := "Book validation failed"
  /** The message of a write that the unique `isbn` index refuses. */
  const DuplicateKey: string := "E11000 duplicate key error"

  /**
   * `addBookController`: the isbn lookup (whose filter goes through the same
   * `trim` setter), then `save()`, which validates the cast document. The
   * new document's id is freshly generated.
   */
  function AddBook(db: Db, raw: Book, newId: Id): (s: Step<Reply>)
    requires IsCanonicalId(newId) && newId !in db.books
    ensures s.reply == Reply(409, BookExists) <==> IsbnTaken(db.books, Trim(raw.isbn))
    ensures s.reply == Reply(500, ValidationFailed) <==> !IsbnTaken(db.books, Trim(raw.isbn)) && !Accepts(raw)
    ensures s.reply.status == 200 <==> !IsbnTaken(db.books, Trim(raw.isbn)) && Accepts(raw)
    ensures s.reply.status != 200 ==> s.post == db
    ensures s.reply.status == 200 ==>
      && s.reply.message == BookAdded
      && s.post.loans == db.loans
      && s.post.books == db.books[newId := CastBook(raw)]
      && ValidBook(s.post.books[newId])
  {
    if IsbnTaken(db.books, Trim(raw.isbn)) then Step(Reply(409, BookExists), db)
    else if !Accepts(raw) then Step(Reply(500, ValidationFailed), db)
    else Step(Reply(200, BookAdded), db.(books := db.books[newId := CastBook(raw)]))
  }

  /** An update body: the fields it sets, each optional. */
  datatype Patch = Patch(
    title: Option<string>,
    author: Option<string>,
    isbn: Option<string>,
    publishedDate: Option<int>,
    genre: Option<string>,
    totalCopies: Option<int>,
    availableCopies: Option<int>)

  function TrimmedOr(o: Option<string>, d: string): string {
    if o.Some? then Trim(o.value) else d
  }

  function ValueOr(o: Option<int>, d: int): int {
    if o.Some? then o.value else d
  }

  /** The document after the update, with the `trim` setters applied to the strings it sets. */
  function Patched(b: Book, p: Patch): Book {
    Book(TrimmedOr(p.title, b.title), TrimmedOr(p.author, b.author), TrimmedOr(p.isbn, b.isbn),
         ValueOr(p.publishedDate, b.publishedDate), TrimmedOr(p.genre, b.genre),
         ValueOr(p.totalCopies, b.totalCopies), ValueOr(p.availableCopies, b.availableCopies))
  }

  /** Some other document of the catalog already carries this isbn. */
  predicate IsbnTakenByOther(books: map<Id, Book>, id: Id, isbn: string) {
    exists o | o in books && o != id :: books[o].isbn == isbn
  }

  /**
   * `updateBookController`: `findByIdAndUpdate(id, body, { runValidators: true })`.
   * The updated document must pass the schema and keep its isbn unique.
   */
  function UpdateBook(db: Db, id: Id, patch: Patch): (s: Step<Reply>)
    ensures !IsObjectIdHex(id) <==> s.reply == Reply(500, CastFailed)
    ensures s.reply == Reply(409, BookNotFound) <==> IsObjectIdHex(id) && Canon(id) !in db.books
    ensures s.reply.status == 200 <==>
      && IsObjectIdHex(id) && Canon(id) in db.books
      && ValidBook(Patched(db.books[Canon(id)], patch))
      && !IsbnTakenByOther(db.books, Canon(id), Patched(db.books[Canon(id)], patch).isbn)
    ensures s.reply.status != 200 ==> s.post == db
    ensures s.reply.status == 200 ==>
      && s.reply.message == BookUpdated
      && s.post.loans == db.loans
      && s.post.books == db.books[Canon(id) := Patched(db.books[Canon(id)], patch)]
  {
    var key := Canon(id);
    if !IsObjectIdHex(id) then Step(Reply(500, CastFailed), db)
    else if key !in db.books then Step(Reply(409, BookNotFound), db)
    else
      var b := Patched(db.books[key], patch);
      if !ValidBook(b) then Step(Reply(500, ValidationFailed), db)
      else if IsbnTakenByOther(db.books, key, b.isbn) then Step(Reply(500, DuplicateKey), db)
      else Step(Reply(200, BookUpdated), db.(books := db.books[key := b]))
  }

  /** `deleteBookController`: `findByIdAndDelete`; the ledger is left as it is. */
  function DeleteBook(db: Db, id: Id): (s: Step<Reply>)
    ensures !IsObjectIdHex(id) <==> s.reply == Reply(500, CastFailed)
    ensures s.reply == Reply(409, BookNotFound) <==> IsObjectIdHex(id) && Canon(id) !in db.books
    ensures s.reply == Reply(200, BookDeleted) <==> IsObjectIdHex(id) && Canon(id) in db.books
    ensures s.reply.status != 200 ==> s.post == db
    ensures s.reply.status == 200 ==> s.post == db.(books := db.books - {Canon(id)})
  {
    var key := Canon(id);
    if !IsObjectIdHex(id) then Step(Reply(500, CastFailed), db)
    else if key !in db.books then Step(Reply(409, BookNotFound), db)
    else Step(Reply(200, BookDeleted), db.(books := db.books - {key}))
  }

  lemma AddKeepsInvariants(db: Db, raw: Book, newId: Id)
    requires IsCanonicalId(newId) && newId !in db.books
    requires Wellformed(db)
    ensures Wellformed(AddBook(db, raw, newId).post)
    ensures Balanced(db) && ActiveCount(db.loans, newId) == 0 ==> Balanced(AddBook(db, raw, newId).post)
  {
    var s := AddBook(db, raw, newId);
    if s.reply.status == 200 {
      var nb := CastBook(raw);
      assert ValidBook(nb) && nb.isbn == Trim(raw.isbn);
      InsertKeepsInvariants(db, newId, nb);
    }
  }

  lemma InsertKeepsInvariants(db: Db, newId: Id, nb: Book)
    requires IsCanonicalId(newId) && newId !in db.books
    requires Wellformed(db) && ValidBook(nb) && !IsbnTaken(db.books, nb.isbn)
    ensures Wellformed(Db(db.books[newId := nb], db.loans))
    ensures Balanced(db) && ActiveCount(db.loans, newId) == 0 ==> Balanced(Db(db.books[newId := nb], db.loans))
  {
    InsertKeepsUnique(db.books, newId, nb);
  }

  /** Inserting a document whose isbn is not taken keeps the isbns unique. */
  lemma InsertKeepsUnique(books: map<Id, Book>, id: Id, b: Book)
    requires UniqueIsbns(books) && !IsbnTaken(books, b.isbn) && id !in books
    ensures UniqueIsbns(books[id := b])
  {
    var post := books[id := b];
    forall i, j | i in post && j in post && post[i].isbn == post[j].isbn
      ensures i == j
    {
      if i != id && j != id {
        assert books[i].isbn == books[j].isbn;
      }
    }
  }

  lemma UpdateKeepsWellformed(db: Db, id: Id, patch: Patch)
    requires Wellformed(db)
    ensures Wellformed(UpdateBook(db, id, patch).post)
  {
    var s := UpdateBook(db, id, patch);
    if s.reply.status == 200 {
      ReplaceKeepsCatalog(db.books, Canon(id), Patched(db.books[Canon(id)], patch));
    }
  }

  /** Replacing a document by a valid one whose isbn no other document carries keeps the catalog well-formed. */
  lemma ReplaceKeepsCatalog(books: map<Id, Book>, id: Id, b: Book)
    requires CatalogOk(books) && id in books
    requires ValidBook(b) && !IsbnTakenByOther(books, id, b.isbn)
    ensures CatalogOk(books[id := b])
  {
    var post := books[id := b];
    assert StoredOk(id, b) by {
      assert StoredOk(id, books[id]);
    }
    assert forall i | i in post :: StoredOk(i, post[i]);
    ReplaceKeepsUnique(books, id, b);
  }

  lemma ReplaceKeepsUnique(books: map<Id, Book>, id: Id, b: Book)
    requires UniqueIsbns(books) && id in books && !IsbnTakenByOther(books, id, b.isbn)
    ensures UniqueIsbns(books[id := b])
  {
    var post := books[id := b];
    forall i, j | i in post && j in post && post[i].isbn == post[j].isbn
      ensures i == j
    {
      if i != id && j != id {
        assert books[i].isbn == books[j].isbn;
      }
    }
  }

  lemma DeleteKeepsInvariants(db: Db, id: Id)
    requires Wellformed(db)
    ensures Wellformed(DeleteBook(db, id).post)
    ensures Balanced(db) ==> Balanced(DeleteBook(db, id).post)
  {
    if IsObjectIdHex(id) && Canon(id) in db.books {
      var post := db.books - {Canon(id)};
      assert forall b | b in post :: b in db.books && post[b] == db.books[b];
      assert UniqueIsbns(post) by {
        forall i, j | i in post && j in post && post[i].isbn == post[j].isbn
          ensures i == j
        {
          assert db.books[i].isbn == db.books[j].isbn;
        }
      }
    }
  }

  /** A book deleted while on loan no longer gets its copy back: the return sends no reply. */
  lemma ReturnAfterDelete(db: Db, userId: Id, bookId: Id, now: int)
    requires DeleteBook(db, bookId).reply.status == 200
    requires IsObjectIdHex(userId) && HasActive(db.loans, Canon(userId), Canon(bookId))
    ensures Return(DeleteBook(db, bookId).post, userId, bookId, now).reply.None?
  {
  }

  /**
   * The admin update sets `availableCopies` without looking at the ledger, and
   * the return's `$inc` has no cap: with a copy on loan, raising the free
   * copies to the total and then returning the loan leaves more free copies
   * than the book has.
   */
  lemma UpdateThenReturnExceedsTotal(db: Db, userId: Id, bookId: Id, now: int)
    requires Wellformed(db) && bookId in db.books
    requires HasActive(db.loans, userId, bookId)
    ensures var total := db.books[bookId].totalCopies;
      var u := UpdateBook(db, bookId, Patch(None, None, None, None, None, None, Some(total)));
      && u.reply == Reply(200, BookUpdated)
      && !Balanced(u.post)
      && var r := Return(u.post, userId, bookId, now);
      && r.reply == Some(Reply(200, ReturnDone))
      && r.post.books[bookId].availableCopies == total + 1
  {
    var i :| 0 <= i < |db.loans| && ActiveFor(db.loans[i], userId, bookId);
    assert RecordShape(db.loans[i]);
    CanonCases(userId);
    var b := db.books[bookId];
    var p := Patch(None, None, None, None, None, None, Some(b.totalCopies));
    var u := UpdateBook(db, bookId, p);
    UpdateToTotal(db, bookId);
    assert ActiveCount(u.post.loans, bookId) > 0 by {
      ActiveCountPositive(db.loans, bookId, i);
    }
  }

  /** Setting the free copies of a stored book to its total is an update the schema accepts. */
  lemma UpdateToTotal(db: Db, bookId: Id)
    requires Wellformed(db) && bookId in db.books
    ensures var b := db.books[bookId];
      && Canon(bookId) == bookId
      && UpdateBook(db, bookId, Patch(None, None, None, None, None, None, Some(b.totalCopies)))
         == Step(Reply(200, BookUpdated), db.(books := db.books[bookId := b.(availableCopies := b.totalCopies)]))
  {
    var b := db.books[bookId];
    assert StoredOk(bookId, b);
    CanonCases(bookId);
    var p := Patch(None, None, None, None, None, None, Some(b.totalCopies));
    assert Patched(b, p) == b.(availableCopies := b.totalCopies);
  }
}
