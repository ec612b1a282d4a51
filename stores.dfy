/**
 * The two collections the handlers act on, as one object: the book catalog and
 * the borrow ledger. Each method is one request, carried out as the handler
 * does it (lookup, insert or update, then the counter change) and proved to
 * leave the stores as the matching `Circulation` step says.
 */
module Stores {
  import opened Js
  import opened Common
  import opened BookModel
  import opened BorrowModel
  import opened Circulation

  class Library {
    /** The `books` collection, by document id. */
    var books: map<Id, Book>
    /** The `borrows` collection, in insertion order. */
    var loans: seq<Loan>
    /** The `borrowedDate` default: one time, taken when the schema was defined. */
    const loadTime: int

    function State(): Db
      reads this
    {
      Db(books, loans)
    }

    predicate Valid()
      reads this
    {
      Wellformed(State())
    }

    predicate Balanced()
      reads this
    {
      Circulation.Balanced(State())
    }

    constructor(loadTime: int)
      ensures this.loadTime == loadTime
      ensures State() == Db(map[], [])
      ensures Valid() && Balanced()
    {
      this.loadTime := loadTime;
      books := map[];
      loans := [];
    }

    /** The record `findOne({ userId, bookId, status: BORROWED })` reaches first, for ids already cast. */
    method FindActive(userId: Id, bookId: Id) returns (r: Option<nat>)
      ensures r == ActiveIndex(loans, userId, bookId)
    {
      var i := 0;
      while i < |loans|
        invariant 0 <= i <= |loans|
        invariant forall j | 0 <= j < i :: !ActiveFor(loans[j], userId, bookId)
      {
        if ActiveFor(loans[i], userId, bookId) {
          return Some(i);
        }
        i := i + 1;
      }
      return None;
    }

    /** `borrowBookController`. */
    method Borrow(userId: Id, bookId: Id) returns (reply: Reply)
      modifies this
      ensures Step(reply, State()) == Circulation.Borrow(old(State()), loadTime, userId, bookId)
      ensures Conserved(old(State()), State())
      ensures old(Valid()) ==> Valid()
      ensures old(Valid() && Balanced()) ==> Balanced()
    {
      BorrowConserves(State(), loadTime, userId, bookId);
      if Valid() {
        BorrowKeepsInvariants(State(), loadTime, userId, bookId);
      }
      if !IsObjectIdHex(userId) || !IsObjectIdHex(bookId) {
        return Reply(500, CastFailed);
      }
      var u, b := Canon(userId), Canon(bookId);
      var found := FindActive(u, b);
      if found.Some? {
        return Reply(409, AlreadyBorrowed);
      }
      if !(b in books && books[b].availableCopies > 0) {
        return Reply(409, NotAvailable);
      }
      loans := loans + [Loan(u, b, Borrowed, loadTime, None)];
      var copy := books[b];
      books := books[b := copy.(availableCopies := copy.availableCopies - 1)];
      return Reply(200, BorrowDone);
    }

    /** `returnBookController`; `None` when the handler sends no reply. */
    method Return(userId: Id, bookId: Id, now: int) returns (reply: Option<Reply>)
      modifies this
      ensures Step(reply, State()) == Circulation.Return(old(State()), userId, bookId, now)
      ensures Conserved(old(State()), State())
      ensures old(Valid()) ==> Valid()
      ensures old(Valid() && Balanced()) ==> Balanced()
    {
      ReturnConserves(State(), userId, bookId, now);
      if Valid() {
        ReturnKeepsInvariants(State(), userId, bookId, now);
      }
      if !IsObjectIdHex(userId) || !IsObjectIdHex(bookId) {
        return Some(Reply(500, CastFailed));
      }
      var u, b := Canon(userId), Canon(bookId);
      var found := FindActive(u, b);
      if found.None? {
        return Some(Reply(409, RecordNotFound));
      }
      var k := found.value;
      loans := loans[k := Close(loans[k], now)];
      if b in books {
        var copy := books[b];
        books := books[b := copy.(availableCopies := copy.availableCopies + 1)];
        return Some(Reply(200, ReturnDone));
      }
      return None;
    }

    /** `viewBorrowHistoryController`; `None` is the 500 reply of a failed cast. */
    method History(userId: Id) returns (r: Option<seq<Entry>>)
      ensures r == Circulation.History(State(), userId)
    {
      if !IsObjectIdHex(userId) {
        return None;
      }
      var u := Canon(userId);
      var entries: seq<Entry> := [];
      var i := 0;
      while i < |loans|
        invariant 0 <= i <= |loans|
        invariant entries == HistoryOf(loans[..i], books, u)
      {
        assert loans[..i + 1][..i] == loans[..i];
        if loans[i].userId == u {
          entries := entries + [Populate(books, loans[i])];
        }
        i := i + 1;
      }
      assert loans[..i] == loans;
      return Some(entries);
    }

    /** `addBookController`; `newId` is the id the driver generates for the document. */
    method AddBook(raw: Book, newId: Id) returns (reply: Reply)
      requires IsCanonicalId(newId) && newId !in books
      modifies this
      ensures Step(reply, State()) == Circulation.AddBook(old(State()), raw, newId)
      ensures old(Valid()) ==> Valid()
      ensures old(Valid() && Balanced()) && ActiveCount(loans, newId) == 0 ==> Balanced()
    {
      ghost var pre := State();
      ghost var step := Circulation.AddBook(pre, raw, newId);
      var doc := CastBook(raw);
      if IsbnTaken(books, Trim(raw.isbn)) {
        reply := Reply(409, BookExists);
      } else if !Accepts(raw) {
        reply := Reply(500, ValidationFailed);
      } else {
        books := books[newId := doc];
        reply := Reply(200, BookAdded);
      }
      assert State() == step.post && reply == step.reply;
      if Wellformed(pre) {
        AddKeepsInvariants(pre, raw, newId);
      }
    }

    /** `updateBookController`. */
    method UpdateBook(id: Id, patch: Patch) returns (reply: Reply)
      modifies this
      ensures Step(reply, State()) == Circulation.UpdateBook(old(State()), id, patch)
      ensures old(Valid()) ==> Valid()
    {
      if Valid() {
        UpdateKeepsWellformed(State(), id, patch);
      }
      if !IsObjectIdHex(id) {
        return Reply(500, CastFailed);
      }
      var key := Canon(id);
      if key !in books {
        return Reply(409, BookNotFound);
      }
      var doc := Patched(books[key], patch);
      if !ValidBook(doc) {
        return Reply(500, ValidationFailed);
      }
      if IsbnTakenByOther(books, key, doc.isbn) {
        return Reply(500, DuplicateKey);
      }
      books := books[key := doc];
      return Reply(200, BookUpdated);
    }

    /** `deleteBookController`. */
    method DeleteBook(id: Id) returns (reply: Reply)
      modifies this
      ensures Step(reply, State()) == Circulation.DeleteBook(old(State()), id)
      ensures old(Valid()) ==> Valid()
      ensures old(Valid() && Balanced()) ==> Balanced()
    {
      if Valid() {
        DeleteKeepsInvariants(State(), id);
      }
      if !IsObjectIdHex(id) {
        return Reply(500, CastFailed);
      }
      var key := Canon(id);
      if key !in books {
        return Reply(409, BookNotFound);
      }
      books := books - {key};
      return Reply(200, BookDeleted);
    }
  }
}
