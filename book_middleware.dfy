/**
 * The middlewares in front of the catalog routes: role authorisation, the
 * book id check, and the add and update payload checks with their exact
 * order of precedence. `isISBN` and the date parser are the libraries'
 * predicates, taken as parameters.
 */
module BookMiddleware {
  import opened Js
  import opened Common
  import opened AuthMiddleware
  import UserModel
  import BookModel

  // ---------------------------------------------------------------------------
  // authorizeUserRole, checkValidBookId

  const PermissionDenied: string := "Permission denied!"

  /** `authorizeUserRole(allowedUsers)`: the caller's role must be one of the list. */
  function AuthorizeUserRole(allowedUsers: seq<string>, role: Value): (g: Gate)
    ensures g.Next? <==> role.Str? && role.s in allowedUsers
    ensures !g.Next? ==> g == Stop(Reply(403, PermissionDenied))
  {
    if role.Str? && role.s in allowedUsers then Next else Stop(Reply(403, PermissionDenied))
  }

  /** Every stored user may use the routes open to `[ADMIN, MEMBER]`; only admins pass `[ADMIN]`. */
  lemma RolesOfStoredUsers(u: UserModel.User)
    requires UserModel.ValidUser(u)
    ensures AuthorizeUserRole([ADMIN, MEMBER], Str(u.role)) == Next
    ensures AuthorizeUserRole([ADMIN], Str(u.role)) == Next <==> u.role == ADMIN
  {
  }

  /** The default empty list lets nobody through. */
  lemma EmptyAllowListDenies(role: Value)
    ensures AuthorizeUserRole([], role) == Stop(Reply(403, PermissionDenied))
  {
  }

  const InvalidBookId: string := "Invlid book id!"

  /** `checkValidBookId` on the `:id` route parameter. */
  function CheckValidBookId(id: Value): (g: Gate)
    ensures g.Next? <==> IsObjectIdOrHexString(id)
    ensures !g.Next? ==> g == Stop(Reply(400, InvalidBookId))
  {
    if IsObjectIdOrHexString(id) then Next else Stop(Reply(400, InvalidBookId))
  }

  // ---------------------------------------------------------------------------
  // validateStringFields

  /**
   * `validateStringFields`: every item is checked, but the `return` inside the
   * `forEach` callback only leaves the callback, so the result is always null;
   * `checked` records what each call answered before it was discarded.
   */
  method ValidateStringFields(items: seq<LengthRule>) returns (r: Option<string>, ghost checked: seq<Option<string>>)
    ensures r.None?
    ensures |checked| == |items|
    ensures forall i | 0 <= i < |items| :: checked[i] == StringTypeLengthCheck(items[i])
  {
    checked := [];
    var i := 0;
    while i < |items|
      invariant 0 <= i <= |items| && |checked| == i
      invariant forall j | 0 <= j < i :: checked[j] == StringTypeLengthCheck(items[j])
    {
      var checkRes := StringTypeLengthCheck(items[i]);
      checked := checked + [checkRes];
      i := i + 1;
    }
    r := None;
  }

  // ---------------------------------------------------------------------------
  // checkStringTypelength

  /** One row of the `sourceFields` table. */
  datatype FieldBound = FieldBound(key: string, minLength: nat, maxLength: nat, text: string)

  const StringFields: seq<FieldBound> := [
    FieldBound("title", 1, 150, "Title"),
    FieldBound("author", 2, 100, "Author Name"),
    FieldBound("isbn", 10, 13, "ISBN number"),
    FieldBound("genre", 3, 30, "Genre")
  ]

  function RuleFor(f: FieldBound, v: Value): LengthRule {
    LengthRule(v, f.minLength, f.maxLength, f.text)
  }

  /** What row `f` contributes: nothing when its key is not in the object. */
  function FieldError(f: FieldBound, values: Body): (r: Option<string>)
    ensures f.key !in values ==> r.None?
    ensures f.key in values ==> r == StringTypeLengthCheck(RuleFor(f, values[f.key]))
  {
    if f.key in values then StringTypeLengthCheck(RuleFor(f, values[f.key])) else None
  }

  function FieldErrors(rows: seq<FieldBound>, values: Body): (r: seq<Option<string>>)
    ensures |r| == |rows|
    ensures forall i | 0 <= i < |rows| :: r[i] == FieldError(rows[i], values)
  {
    seq(|rows|, i requires 0 <= i < |rows| => FieldError(rows[i], values))
  }

  /** The value `checkStringTypelength` returns. */
  function StringFieldsError(values: Body): Option<string> {
    LastError(FieldErrors(StringFields, values))
  }

  /**
   * `checkStringTypelength`: the rows whose key is in the object are checked in
   * table order, and each failure overwrites `errMsg`.
   */
  method CheckStringTypelength(values: Body) returns (errMsg: Option<string>)
    ensures errMsg == StringFieldsError(values)
  {
    ghost var errs := FieldErrors(StringFields, values);
    errMsg := None;
    var i := 0;
    while i < |StringFields|
      invariant 0 <= i <= |StringFields|
      invariant errMsg == LastError(errs[..i])
    {
      var row := StringFields[i];
      if row.key in values {
        var errInfo := StringTypeLengthCheck(RuleFor(row, values[row.key]));
        if errInfo.Some? {
          errMsg := errInfo;
        }
      }
      assert errs[i] == FieldError(row, values);
      LastErrorSnoc(errs[..i], errs[i]);
      assert errs[..i + 1] == errs[..i] + [errs[i]];
      i := i + 1;
    }
    assert errs[..i] == errs;
  }

  /** No message exactly when every row present in the object is a string of allowed trimmed length. */
  lemma StringFieldsOk(values: Body)
    ensures StringFieldsError(values).None? <==>
      forall i | 0 <= i < |StringFields| && StringFields[i].key in values ::
        FitsRule(RuleFor(StringFields[i], values[StringFields[i].key]))
  {
  }

  /** A bad genre is the message reported, whatever else is wrong: it is the last row. */
  lemma GenreErrorWins(values: Body)
    requires "genre" in values && !FitsRule(RuleFor(StringFields[3], values["genre"]))
    ensures StringFieldsError(values) == Some(LengthMessage("Genre", 3, 30))
  {
    var es := FieldErrors(StringFields, values);
    assert es == es[..3] + [es[3]];
    LastErrorSnoc(es[..3], es[3]);
  }

  // ---------------------------------------------------------------------------
  // checkIsbnPubDate

  const InvalidIsbn: string := "Invalid ISBN!"
  const InvalidPublishedDate: string := "Invalid published date!"

  /** `checkIsbnPubDate`: the date's message is assigned last, so it wins. */
  function CheckIsbnPubDate(isbn: Value, publishedDate: Value, isIsbn: string -> bool, parsesAsDate: string -> bool): (r: Option<string>)
    ensures r == Some(InvalidPublishedDate) <==> !(publishedDate.Str? && DateValid(publishedDate, parsesAsDate))
    ensures r == Some(InvalidIsbn) <==>
      publishedDate.Str? && DateValid(publishedDate, parsesAsDate) && !(isbn.Str? && isIsbn(isbn.s))
    ensures r.None? <==>
      publishedDate.Str? && DateValid(publishedDate, parsesAsDate) && isbn.Str? && isIsbn(isbn.s)
  {
    var errMsg := if !isbn.Str? || !isIsbn(isbn.s) then Some(InvalidIsbn) else None;
    if !publishedDate.Str? || !DateValid(publishedDate, parsesAsDate) then Some(InvalidPublishedDate) else errMsg
  }

  // ---------------------------------------------------------------------------
  // addBookPayloadCheck

  const AddRequired: seq<string> :=
    ["title", "author", "isbn", "publishedDate", "genre", "totalCopies", "availableCopies"]

  const TotalCopiesInvalid: string := "Total copies should be a valid number with minimum value 0!"
  const AvailableCopiesInvalid: string := "Available copies should be a valid number with minimum value 0!"
  const CopiesExceedTotal: string := "Available copies count should be less than or equal to total copies!"

  /** `typeof v !== "number" || v < 0` */
  predicate NotCount(v: Value) {
    !v.Num? || v.n < 0
  }

  /**
   * The copy-count checks of `addBookPayloadCheck`: a bad `availableCopies` is
   * answered at once; otherwise the comparison's message overwrites the one for
   * a bad `totalCopies`.
   */
  function AddCopiesError(totalCopies: Value, availableCopies: Value): (r: Option<string>)
    ensures NotCount(availableCopies) ==> r == Some(AvailableCopiesInvalid)
    ensures !NotCount(availableCopies) && Greater(availableCopies, totalCopies) ==> r == Some(CopiesExceedTotal)
    ensures !NotCount(availableCopies) && !Greater(availableCopies, totalCopies) && NotCount(totalCopies) ==>
      r == Some(TotalCopiesInvalid)
    ensures r.None? <==>
      totalCopies.Num? && availableCopies.Num? && 0 <= availableCopies.n <= totalCopies.n
  {
    if NotCount(availableCopies) then Some(AvailableCopiesInvalid)
    else
      var errInfo := if NotCount(totalCopies) then Some(TotalCopiesInvalid) else None;
      if Greater(availableCopies, totalCopies) then Some(CopiesExceedTotal) else errInfo
  }

  /** A negative total is refused, but with the comparison's message, since 0 or more copies exceed it. */
  lemma NegativeTotalReportsComparison(total: int, available: nat)
    requires total < 0
    ensures AddCopiesError(Num(total), Num(available)) == Some(CopiesExceedTotal)
  {
  }

  /**
   * A `null` total passes the required-field check and compares as 0: with
   * no free copies it is reported as not a number, with some as exceeded.
   */
  lemma NullTotal(available: nat)
    ensures AddCopiesError(Null, Num(available)) ==
      if available == 0 then Some(TotalCopiesInvalid) else Some(CopiesExceedTotal)
  {
  }

  /** The string values `addBookPayloadCheck` hands to `checkStringTypelength`: all four keys, present or not. */
  function AddStringValues(body: Body): Body {
    map k | k in StringKeys :: Get(body, k)
  }

  const StringKeys: set<string> := {"title", "author", "isbn", "genre"}

  /**
   * `addBookPayloadCheck` (with the keys of its field table as the required
   * list): 401 for a missing field or a bad string, then 400 for the copy
   * counts, then 400 for the isbn and the date.
   */
  function AddBookPayloadCheck(body: Body, isIsbn: string -> bool, parsesAsDate: string -> bool): (g: Gate)
    ensures CheckReqFields(AddRequired, body).Some? ==>
      g == Stop(Reply(401, CheckReqFields(AddRequired, body).value))
    ensures CheckReqFields(AddRequired, body).None? && StringFieldsError(AddStringValues(body)).Some? ==>
      g == Stop(Reply(401, StringFieldsError(AddStringValues(body)).value))
    ensures (CheckReqFields(AddRequired, body).None? && StringFieldsError(AddStringValues(body)).None?
             && AddCopiesError(Get(body, "totalCopies"), Get(body, "availableCopies")).Some?) ==>
      g == Stop(Reply(400, AddCopiesError(Get(body, "totalCopies"), Get(body, "availableCopies")).value))
    ensures (CheckReqFields(AddRequired, body).None? && StringFieldsError(AddStringValues(body)).None?
             && AddCopiesError(Get(body, "totalCopies"), Get(body, "availableCopies")).None?
             && CheckIsbnPubDate(Get(body, "isbn"), Get(body, "publishedDate"), isIsbn, parsesAsDate).Some?) ==>
      g == Stop(Reply(400, CheckIsbnPubDate(Get(body, "isbn"), Get(body, "publishedDate"), isIsbn, parsesAsDate).value))
    ensures g.Next? <==>
      && CheckReqFields(AddRequired, body).None?
      && StringFieldsError(AddStringValues(body)).None?
      && AddCopiesError(Get(body, "totalCopies"), Get(body, "availableCopies")).None?
      && CheckIsbnPubDate(Get(body, "isbn"), Get(body, "publishedDate"), isIsbn, parsesAsDate).None?
    ensures g.Stop? ==> g.reply.status == 401 || g.reply.status == 400
  {
    var missingErr := CheckReqFields(AddRequired, body);
    if missingErr.Some? then Stop(Reply(401, missingErr.value))
    else
      var stringErr := StringFieldsError(AddStringValues(body));
      if stringErr.Some? then Stop(Reply(401, stringErr.value))
      else
        var copiesErr := AddCopiesError(Get(body, "totalCopies"), Get(body, "availableCopies"));
        if copiesErr.Some? then Stop(Reply(400, copiesErr.value))
        else Reject(CheckIsbnPubDate(Get(body, "isbn"), Get(body, "publishedDate"), isIsbn, parsesAsDate))
  }

  /** What a body that passes the add checks holds, field by field. */
  lemma AddPayloadFields(body: Body, isIsbn: string -> bool, parsesAsDate: string -> bool)
    requires AddBookPayloadCheck(body, isIsbn, parsesAsDate).Next?
    ensures FitsRule(RuleFor(StringFields[0], Get(body, "title")))
    ensures FitsRule(RuleFor(StringFields[1], Get(body, "author")))
    ensures FitsRule(RuleFor(StringFields[2], Get(body, "isbn")))
    ensures FitsRule(RuleFor(StringFields[3], Get(body, "genre")))
    ensures Get(body, "totalCopies").Num? && Get(body, "availableCopies").Num?
    ensures 0 <= Get(body, "availableCopies").n <= Get(body, "totalCopies").n
  {
    AddStringFits(body, 0);
    AddStringFits(body, 1);
    AddStringFits(body, 2);
    AddStringFits(body, 3);
  }

  /** Without a message from the add body's strings, each of the four fits its row. */
  lemma AddStringFits(body: Body, i: nat)
    requires StringFieldsError(AddStringValues(body)).None? && i < |StringFields|
    ensures FitsRule(RuleFor(StringFields[i], Get(body, StringFields[i].key)))
  {
    var values := AddStringValues(body);
    StringFieldsOk(values);
    var key := StringFields[i].key;
    assert key in values && values[key] == Get(body, key);
  }

  /**
   * A body that passes the add checks, once cast by the schema's setters, is a
   * document the Book schema accepts (whatever date it denotes).
   */
  lemma AddPayloadMeetsSchema(body: Body, isIsbn: string -> bool, parsesAsDate: string -> bool, date: int)
    requires AddBookPayloadCheck(body, isIsbn, parsesAsDate).Next?
    ensures Get(body, "title").Str? && Get(body, "author").Str? && Get(body, "isbn").Str? && Get(body, "genre").Str?
    ensures Get(body, "totalCopies").Num? && Get(body, "availableCopies").Num?
    ensures BookModel.Accepts(BookModel.Book(
      Get(body, "title").s, Get(body, "author").s, Get(body, "isbn").s, date,
      Get(body, "genre").s, Get(body, "totalCopies").n, Get(body, "availableCopies").n))
  {
    AddPayloadFields(body, isIsbn, parsesAsDate);
  }

  // ---------------------------------------------------------------------------
  // checkIsEditabled, updateBookPayloadCheck

  const Editable: seq<string> :=
    ["title", "author", "isbn", "publishedDate", "genre", "totalCopies", "availableCopies"]

  const InvalidPayload: string := "Invalid payload!"

  /** `checkIsEditabled`: every key of the body is one of the seven book fields. */
  function CheckIsEditabled(body: Body): (r: Option<string>)
    ensures r.None? <==> forall k | k in body :: k in Editable
    ensures r.Some? ==> r.value == InvalidPayload
  {
    if forall k | k in body :: k in Editable then None else Some(InvalidPayload)
  }

  /** The `tarStringsObj` of `updateBookPayloadCheck`: only the string keys the body has. */
  function UpdateStringValues(body: Body): (r: Body)
    ensures forall k | k in r :: k in body && r[k] == body[k]
    ensures forall i | 0 <= i < |StringFields| :: StringFields[i].key in body ==> StringFields[i].key in r
  {
    map k | k in body && (k == "title" || k == "author" || k == "isbn" || k == "genre") :: body[k]
  }

  const UpdateAvailableInvalid: string := "Available copies copies should be a valid number with minimum value 0!"
  const UpdateInvalidIsbn: string := "Invalid ISBN"

  /**
   * The five checks of `updateBookPayloadCheck` in order; each failing one
   * overwrites the message. A truthy non-string `isbn` cannot get here: the
   * string check has refused it.
   */
  function UpdateErrors(body: Body, isIsbn: string -> bool, parsesAsDate: string -> bool): (r: seq<Option<string>>)
    ensures |r| == 5
  {
    var totalCopies, availableCopies := Get(body, "totalCopies"), Get(body, "availableCopies");
    var isbn, publishedDate := Get(body, "isbn"), Get(body, "publishedDate");
    [ if (Truthy(totalCopies) && !totalCopies.Num?) || Less(totalCopies, Num(0)) then Some(TotalCopiesInvalid) else None,
      if (Truthy(availableCopies) && !availableCopies.Num?) || Less(availableCopies, Num(0)) then Some(UpdateAvailableInvalid) else None,
      if Truthy(totalCopies) && Truthy(availableCopies) && Greater(availableCopies, totalCopies) then Some(CopiesExceedTotal) else None,
      if Truthy(isbn) && !(isbn.Str? && isIsbn(isbn.s)) then Some(UpdateInvalidIsbn) else None,
      if (Truthy(publishedDate) && !publishedDate.Str?) || !DateValid(publishedDate, parsesAsDate) then Some(InvalidPublishedDate) else None ]
  }

  /** `updateBookPayloadCheck`: the key whitelist and the string checks, then the value checks; all 400. */
  function UpdateBookPayloadCheck(body: Body, isIsbn: string -> bool, parsesAsDate: string -> bool): (g: Gate)
    ensures g.Next? <==>
      && (forall k | k in body :: k in Editable)
      && StringFieldsError(UpdateStringValues(body)).None?
      && LastError(UpdateErrors(body, isIsbn, parsesAsDate)).None?
    ensures g.Stop? ==> g.reply.status == 400
    ensures CheckIsEditabled(body).Some? ==> g == Stop(Reply(400, InvalidPayload))
    ensures CheckIsEditabled(body).None? && StringFieldsError(UpdateStringValues(body)).Some? ==>
      g == Stop(Reply(400, StringFieldsError(UpdateStringValues(body)).value))
    ensures (CheckIsEditabled(body).None? && StringFieldsError(UpdateStringValues(body)).None?
             && LastError(UpdateErrors(body, isIsbn, parsesAsDate)).Some?) ==>
      g == Stop(Reply(400, LastError(UpdateErrors(body, isIsbn, parsesAsDate)).value))
  {
    var errInfo := OrElse(CheckIsEditabled(body), StringFieldsError(UpdateStringValues(body)));
    if errInfo.Some? then Stop(Reply(400, errInfo.value))
    else Reject(LastError(UpdateErrors(body, isIsbn, parsesAsDate)))
  }

  /** An update body that leaves out `publishedDate` is always refused, with the date's message. */
  lemma UpdateWithoutDateRefused(body: Body, isIsbn: string -> bool, parsesAsDate: string -> bool)
    requires "publishedDate" !in body
    requires CheckIsEditabled(body).None? && StringFieldsError(UpdateStringValues(body)).None?
    ensures UpdateBookPayloadCheck(body, isIsbn, parsesAsDate) == Stop(Reply(400, InvalidPublishedDate))
  {
    var es := UpdateErrors(body, isIsbn, parsesAsDate);
    assert es == es[..4] + [es[4]];
    LastErrorSnoc(es[..4], es[4]);
  }

  /** A zero total is falsy, so the comparison is skipped: any count of free copies passes the value checks. */
  lemma ZeroTotalSkipsComparison(body: Body, isIsbn: string -> bool, parsesAsDate: string -> bool, available: nat)
    requires Get(body, "totalCopies") == Num(0) && Get(body, "availableCopies") == Num(available)
    ensures UpdateErrors(body, isIsbn, parsesAsDate)[..3] == [None, None, None]
  {
  }

  /** With both counts given as numbers, an update asking for more free copies than copies is refused. */
  lemma UpdateComparesCounts(body: Body, isIsbn: string -> bool, parsesAsDate: string -> bool, total: int, available: int)
    requires Get(body, "totalCopies") == Num(total) && Get(body, "availableCopies") == Num(available)
    requires 0 < total < available
    ensures UpdateBookPayloadCheck(body, isIsbn, parsesAsDate).Stop?
  {
    var es := UpdateErrors(body, isIsbn, parsesAsDate);
    assert es[2] == Some(CopiesExceedTotal);
  }
}
