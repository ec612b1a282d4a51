/**
 * The middlewares in front of the borrow routes. The two collections are
 * seen only through the ids they hold: `findById(id, { _id: 1 })` answers
 * whether a document exists with the ObjectId that `id` casts to, `Canon(id)`.
 */
module BorrowMiddleware {
  import opened Js
  import opened Common
  import opened AuthMiddleware
  import Circulation
  import BorrowModel

  const IdsNotFound: string := "Invalid bookId or userId!"

  /** The default parameters `userId = ""` and `bookId = ""` apply to `undefined` only. */
  function OrEmpty(v: Value): (r: Value)
    ensures v != Undefined ==> r == v
    ensures Truthy(r) <==> Truthy(v)
  {
    if v == Undefined then Str("") else v
  }

  /**
   * `checkUserNBookIds`: nothing to say when either id is falsy; otherwise the
   * two lookups, each of which throws on an id that does not cast.
   */
  function CheckUserNBookIds(userId: Value, bookId: Value, users: set<Id>, books: set<Id>): (r: Try<Option<string>>)
    ensures !(Truthy(userId) && Truthy(bookId)) ==> r == Ok(None)
    ensures Truthy(userId) && Truthy(bookId) && !(IsObjectIdOrHexString(userId) && IsObjectIdOrHexString(bookId)) ==>
      r == Threw
    ensures IsObjectIdOrHexString(userId) && IsObjectIdOrHexString(bookId) ==>
      && r.Ok?
      && (r.value == Some(IdsNotFound) <==> !(Canon(userId.s) in users && Canon(bookId.s) in books))
      && (r.value.Some? ==> r.value.value == IdsNotFound)
  {
    var u, b := OrEmpty(userId), OrEmpty(bookId);
    if !(Truthy(u) && Truthy(b)) then Ok(None)
    else if !IsObjectIdOrHexString(u) || !IsObjectIdOrHexString(b) then Threw
    else
      var userFound, bookFound := Canon(u.s) in users, Canon(b.s) in books;
      Ok(if !(userFound && bookFound) then Some(IdsNotFound) else None)
  }

  const BorrowRequired: seq<string> := ["userId", "bookId"]
  const InvalidUserIdForm: string := "Invalid UserID!"
  const InvalidBookIdForm: string := "Invalid BookID!"

  /** The format checks of `validateBorrowOrReturnPayload`, first failure first. */
  function PayloadFormError(body: Body): (r: Option<string>)
    ensures r.None? <==> IsObjectIdOrHexString(Get(body, "userId")) && IsObjectIdOrHexString(Get(body, "bookId"))
    ensures Absent(body, "userId") ==> r == Some(RequiredMessage("userId"))
    ensures !Absent(body, "userId") && Absent(body, "bookId") ==> r == Some(RequiredMessage("bookId"))
    ensures !Absent(body, "userId") && !Absent(body, "bookId") && !IsObjectIdOrHexString(Get(body, "userId")) ==>
      r == Some(InvalidUserIdForm)
    ensures (!Absent(body, "userId") && !Absent(body, "bookId") && IsObjectIdOrHexString(Get(body, "userId"))
             && !IsObjectIdOrHexString(Get(body, "bookId"))) ==> r == Some(InvalidBookIdForm)
  {
    assert Absent(body, "userId") ==> FirstAbsent(BorrowRequired, body) == Some(0);
    assert !Absent(body, "userId") && Absent(body, "bookId") ==> FirstAbsent(BorrowRequired, body) == Some(1);
    var reqCheckRes := CheckReqFields(BorrowRequired, body);
    if reqCheckRes.Some? then reqCheckRes
    else if !IsObjectIdOrHexString(Get(body, "userId")) then Some(InvalidUserIdForm)
    else if !IsObjectIdOrHexString(Get(body, "bookId")) then Some(InvalidBookIdForm)
    else None
  }

  /**
   * `validateBorrowOrReturnPayload`: required fields, then the userId format,
   * then the bookId format, then existence; every refusal is a 400.
   */
  function ValidateBorrowOrReturnPayload(body: Body, users: set<Id>, books: set<Id>): (g: Gate)
    ensures g.Next? <==>
      && IsObjectIdOrHexString(Get(body, "userId")) && Canon(Get(body, "userId").s) in users
      && IsObjectIdOrHexString(Get(body, "bookId")) && Canon(Get(body, "bookId").s) in books
    ensures g.Stop? ==> g.reply.status == 400
    ensures PayloadFormError(body).Some? ==> g == Stop(Reply(400, PayloadFormError(body).value))
    ensures PayloadFormError(body).None? && !g.Next? ==> g == Stop(Reply(400, IdsNotFound))
  {
    var errMsg := PayloadFormError(body);
    if errMsg.Some? then Stop(Reply(400, errMsg.value))
    else
      match CheckUserNBookIds(Get(body, "userId"), Get(body, "bookId"), users, books)
      case Threw => assert false; Stop(Reply(400, IdsNotFound))
      case Ok(idsCheckErr) => Reject(idsCheckErr)
  }

  /** A missing userId is reported before anything about the bookId. */
  lemma MissingUserIdFirst(body: Body, users: set<Id>, books: set<Id>)
    requires "userId" !in body
    ensures ValidateBorrowOrReturnPayload(body, users, books) == Stop(Reply(400, RequiredMessage("userId")))
  {
    assert Absent(body, BorrowRequired[0]);
    assert FirstAbsent(BorrowRequired, body) == Some(0);
  }

  /** A malformed userId is reported even when the bookId is malformed too. */
  lemma UserIdFormatFirst(body: Body, users: set<Id>, books: set<Id>)
    requires !Absent(body, "userId") && !Absent(body, "bookId")
    requires !IsObjectIdOrHexString(Get(body, "userId"))
    ensures ValidateBorrowOrReturnPayload(body, users, books) == Stop(Reply(400, InvalidUserIdForm))
  {
    assert FirstAbsent(BorrowRequired, body).None?;
  }

  /**
   * A request that passes reaches the borrow handler with ids that cast and a
   * book that exists: the handler's reply is never the 500 of a failed cast,
   * and it refuses for lack of copies only when the book has none free.
   */
  lemma PassedBorrowReachesHandler(body: Body, users: set<Id>, db: Circulation.Db, loadTime: int)
    requires ValidateBorrowOrReturnPayload(body, users, db.books.Keys).Next?
    ensures var userId, bookId := Get(body, "userId").s, Get(body, "bookId").s;
      var reply := Circulation.Borrow(db, loadTime, userId, bookId).reply;
      && reply.status != 500
      && (reply == Reply(409, Circulation.NotAvailable) <==>
          && !BorrowModel.HasActive(db.loans, Canon(userId), Canon(bookId))
          && db.books[Canon(bookId)].availableCopies <= 0)
  {
  }

  /** The same request on the return route never sends the handler's silence or a 500. */
  lemma PassedReturnReachesHandler(body: Body, users: set<Id>, db: Circulation.Db, now: int)
    requires ValidateBorrowOrReturnPayload(body, users, db.books.Keys).Next?
    ensures var reply := Circulation.Return(db, Get(body, "userId").s, Get(body, "bookId").s, now).reply;
      reply.Some? && reply.value.status != 500
  {
  }

  const InvalidBorrowId: string := "Invalid borrow ID!"

  /** `validateBorrowId` on the `:id` route parameter. */
  function ValidateBorrowId(id: Value): (g: Gate)
    ensures g.Next? <==> IsObjectIdOrHexString(id)
    ensures !g.Next? ==> g == Stop(Reply(400, InvalidBorrowId))
  {
    if !IsObjectIdOrHexString(id) then Stop(Reply(400, InvalidBorrowId)) else Next
  }

  const InvalidUserId: string := "Invalid user ID!"

  /** `validateViewBorrowHisoryPayload` on the `:userId` route parameter. */
  function ValidateViewBorrowHistoryPayload(userId: Value, users: set<Id>): (g: Gate)
    ensures g.Next? <==> IsObjectIdOrHexString(userId) && Canon(userId.s) in users
    ensures !g.Next? ==> g == Stop(Reply(400, InvalidUserId))
  {
    if !Truthy(userId) || !IsObjectIdOrHexString(userId) || Canon(userId.s) !in users then
      Stop(Reply(400, InvalidUserId))
    else Next
  }

  /** A history request that passes is answered with the history, never the 500 of a failed cast. */
  lemma PassedHistoryReachesHandler(userId: Value, users: set<Id>, db: Circulation.Db)
    requires ValidateViewBorrowHistoryPayload(userId, users).Next?
    ensures Circulation.History(db, userId.s).Some?
  {
  }
}
