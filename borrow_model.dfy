/**
 * The Borrow schema and the queries the controllers run against the ledger of
 * borrow records.
 */
module BorrowModel {
  import opened Js
  import opened Common

  datatype Status = Borrowed | Returned

  function StatusName(st: Status): string {
    match st
    case Borrowed => BORROWED
    case Returned => RETURNED
  }

  /** The `status` path: trimmed, then checked against the enum. */
  function ParseStatus(raw: string): (r: Option<Status>)
    ensures r.Some? <==> Trim(raw) == BORROWED || Trim(raw) == RETURNED
    ensures r.Some? ==> StatusName(r.value) == Trim(raw)
  {
    var t := Trim(raw);
    if t == BORROWED then Some(Borrowed)
    else if t == RETURNED then Some(Returned)
    else None
  }

  lemma StatusRoundTrip(st: Status)
    ensures ParseStatus(StatusName(st)) == Some(st)
  {
    TrimOfTrimmed(StatusName(st));
  }

  /** Surrounding whitespace does not matter to the enum check. */
  lemma StatusIgnoresPadding(st: Status, pad: string)
    requires forall i | 0 <= i < |pad| :: IsSpace(pad[i])
    ensures ParseStatus(pad + StatusName(st) + pad) == Some(st)
  {
    TrimPadded(pad, StatusName(st), pad);
  }

  /**
   * A borrow record. `borrowedDate` and `returnedDate` are times in
   * milliseconds; `returnedDate` is absent until the book is returned.
   */
  datatype Loan = Loan(
    userId: Id,
    bookId: Id,
    status: Status,
    borrowedDate: int,
    returnedDate: Option<int>)

  /**
   * The schema's constraints: both references present (as ObjectIds), and a
   * return date, when there is one, strictly after the borrow date.
   */
  predicate ValidLoan(l: Loan) {
    && IsObjectIdHex(l.userId)
    && IsObjectIdHex(l.bookId)
    && (l.returnedDate.Some? ==> l.returnedDate.value > l.borrowedDate)
  }

  /** `{ userId, bookId, status: BORROWED }` matches the record. */
  predicate ActiveFor(l: Loan, userId: Id, bookId: Id) {
    l.status == Borrowed && l.userId == userId && l.bookId == bookId
  }

  /** At most one BORROWED record per (userId, bookId) pair. */
  predicate AtMostOneActive(ledger: seq<Loan>) {
    forall i, j | 0 <= i < |ledger| && 0 <= j < |ledger| ::
      (ledger[i].status == Borrowed && ledger[j].status == Borrowed &&
       ledger[i].userId == ledger[j].userId && ledger[i].bookId == ledger[j].bookId) ==> i == j
  }

  predicate HasActive(ledger: seq<Loan>, userId: Id, bookId: Id) {
    exists i | 0 <= i < |ledger| :: ActiveFor(ledger[i], userId, bookId)
  }

  /** The first record that `findOne` / `findOneAndUpdate` with the active filter reaches. */
  function ActiveIndex(ledger: seq<Loan>, userId: Id, bookId: Id): (r: Option<nat>)
    ensures r.None? <==> !HasActive(ledger, userId, bookId)
    ensures r.Some? ==> r.value < |ledger| && ActiveFor(ledger[r.value], userId, bookId)
    ensures r.Some? ==> forall j | 0 <= j < r.value :: !ActiveFor(ledger[j], userId, bookId)
  {
    if ledger == [] then None
    else if ActiveFor(ledger[0], userId, bookId) then Some(0)
    else
      var r := ActiveIndex(ledger[1..], userId, bookId);
      assert HasActive(ledger, userId, bookId) ==> HasActive(ledger[1..], userId, bookId) by {
        if HasActive(ledger, userId, bookId) {
          var i :| 0 <= i < |ledger| && ActiveFor(ledger[i], userId, bookId);
          assert ActiveFor(ledger[1..][i - 1], userId, bookId);
        }
      }
      if r.None? then None else Some(r.value + 1)
  }

  /** The number of BORROWED records of a book. */
  function ActiveCount(ledger: seq<Loan>, bookId: Id): nat {
    if ledger == [] then 0
    else
      ActiveCount(ledger[..|ledger| - 1], bookId)
      + (if ledger[|ledger| - 1].status == Borrowed && ledger[|ledger| - 1].bookId == bookId then 1 else 0)
  }

  /** A book with a BORROWED record has a positive count. */
  lemma {:induction false} ActiveCountPositive(ledger: seq<Loan>, bookId: Id, i: nat)
    requires i < |ledger| && ledger[i].status == Borrowed && ledger[i].bookId == bookId
    ensures ActiveCount(ledger, bookId) > 0
  {
    var n := |ledger|;
    if i < n - 1 {
      assert ledger[..n - 1][i] == ledger[i];
      ActiveCountPositive(ledger[..n - 1], bookId, i);
    }
  }

  lemma ActiveCountAppend(ledger: seq<Loan>, l: Loan, bookId: Id)
    ensures ActiveCount(ledger + [l], bookId) ==
      ActiveCount(ledger, bookId) + (if l.status == Borrowed && l.bookId == bookId then 1 else 0)
  {
    assert (ledger + [l])[..|ledger|] == ledger;
  }

  /** Replacing one record changes the count by the difference it makes. */
  lemma {:induction false} ActiveCountUpdate(ledger: seq<Loan>, k: nat, l: Loan, bookId: Id)
    requires k < |ledger|
    ensures ActiveCount(ledger[k := l], bookId) + (if ledger[k].status == Borrowed && ledger[k].bookId == bookId then 1 else 0)
         == ActiveCount(ledger, bookId) + (if l.status == Borrowed && l.bookId == bookId then 1 else 0)
  {
    var n := |ledger|;
    var upd := ledger[k := l];
    if k == n - 1 {
      assert upd[..n - 1] == ledger[..n - 1];
    } else {
      assert upd[..n - 1] == ledger[..n - 1][k := l];
      ActiveCountUpdate(ledger[..n - 1], k, l, bookId);
    }
  }

  /**
   * The schema's index on (userId, bookId) is not unique: a ledger in which
   * every record passes the schema validators can still hold two BORROWED
   * records for one pair. Only the controller's check keeps them apart.
   */
  lemma SchemaAllowsDuplicateActiveLoans()
    ensures exists ledger: seq<Loan> ::
      (forall i | 0 <= i < |ledger| :: ValidLoan(ledger[i])) && !AtMostOneActive(ledger)
  {
    var id := "0123456789abcdef01234567";
    assert forall i | 0 <= i < |id| :: IsHexDigit(id[i]);
    var l := Loan(id, id, Borrowed, 0, None);
    var ledger := [l, l];
    assert ValidLoan(ledger[0]) && ValidLoan(ledger[1]);
    assert ledger[0].status == Borrowed && ledger[1].status == Borrowed;
    assert !AtMostOneActive(ledger);
  }
}
