/**
 * The three report aggregations, as functions of the collections' contents.
 * A `$group` stage is modelled as a tally in order of first appearance and
 * `$sort: { totalBorrows: -1 }` as an insertion sort; the database leaves the
 * order of groups with equal totals open, and so do the lemmas here.
 */
module Reports {
  import opened Js
  import opened Common
  import opened BookModel
  import opened BorrowModel
  import UserModel

  // ---------------------------------------------------------------------------
  // Grouping

  /** One `$group` output: `{ _id, totalBorrows: { $sum: 1 } }`. */
  datatype Tally = Tally(id: Id, totalBorrows: nat)

  /** The number of occurrences of `x`. */
  function Count(ids: seq<Id>, x: Id): nat {
    if ids == [] then 0
    else Count(ids[..|ids| - 1], x) + (if ids[|ids| - 1] == x then 1 else 0)
  }

  function SumOf(ts: seq<Tally>): nat {
    if ts == [] then 0 else ts[0].totalBorrows + SumOf(ts[1..])
  }

  /** The total of the group for `x`, 0 when there is none. */
  function TallyOf(ts: seq<Tally>, x: Id): nat {
    if ts == [] then 0
    else if ts[0].id == x then ts[0].totalBorrows
    else TallyOf(ts[1..], x)
  }

  predicate HasId(ts: seq<Tally>, x: Id) {
    exists i | 0 <= i < |ts| :: ts[i].id == x
  }

  /** At most one group per key. */
  predicate Distinct(ts: seq<Tally>) {
    forall i, j | 0 <= i < |ts| && 0 <= j < |ts| && ts[i].id == ts[j].id :: i == j
  }

  predicate AllPositive(ts: seq<Tally>) {
    forall i | 0 <= i < |ts| :: ts[i].totalBorrows > 0
  }

  lemma HasIdCons(x: Tally, ts: seq<Tally>)
    ensures forall y :: HasId([x] + ts, y) <==> x.id == y || HasId(ts, y)
  {
    forall y | HasId([x] + ts, y) && x.id != y
      ensures HasId(ts, y)
    {
      var i :| 0 <= i < |ts| + 1 && ([x] + ts)[i].id == y;
      assert ts[i - 1].id == y;
    }
    assert ([x] + ts)[0].id == x.id;
    forall y | HasId(ts, y)
      ensures HasId([x] + ts, y)
    {
      var i :| 0 <= i < |ts| && ts[i].id == y;
      assert ([x] + ts)[i + 1].id == y;
    }
  }

  lemma DistinctCons(x: Tally, ts: seq<Tally>)
    ensures Distinct([x] + ts) <==> Distinct(ts) && !HasId(ts, x.id)
  {
    var r := [x] + ts;
    if HasId(ts, x.id) {
      var i :| 0 <= i < |ts| && ts[i].id == x.id;
      assert r[i + 1].id == r[0].id;
      assert !Distinct(r);
    }
    if Distinct(r) {
      forall i, j | 0 <= i < |ts| && 0 <= j < |ts| && ts[i].id == ts[j].id
        ensures i == j
      {
        assert r[i + 1].id == r[j + 1].id;
      }
    }
    if Distinct(ts) && !HasId(ts, x.id) {
      forall i, j | 0 <= i < |r| && 0 <= j < |r| && r[i].id == r[j].id
        ensures i == j
      {
        if i > 0 && j > 0 {
          assert ts[i - 1].id == ts[j - 1].id;
        }
      }
    }
  }

  /** Count one more record with key `x`: its group goes up by one, or a new group of 1 is opened. */
  function Bump(ts: seq<Tally>, x: Id): seq<Tally> {
    if ts == [] then [Tally(x, 1)]
    else if ts[0].id == x then [ts[0].(totalBorrows := ts[0].totalBorrows + 1)] + ts[1..]
    else [ts[0]] + Bump(ts[1..], x)
  }

  /** Counting one record: the sum and `x`'s group go up by one, the keys gain `x`, the rest is kept. */
  lemma {:induction false} BumpCounts(ts: seq<Tally>, x: Id)
    ensures SumOf(Bump(ts, x)) == SumOf(ts) + 1
    ensures forall y :: TallyOf(Bump(ts, x), y) == TallyOf(ts, y) + (if y == x then 1 else 0)
    ensures forall y :: HasId(Bump(ts, x), y) <==> HasId(ts, y) || y == x
    ensures Distinct(ts) ==> Distinct(Bump(ts, x))
    ensures AllPositive(ts) ==> AllPositive(Bump(ts, x))
  {
    var r := Bump(ts, x);
    if ts == [] {
      assert r[1..] == [];
      HasIdCons(r[0], []);
    } else {
      assert ts == [ts[0]] + ts[1..];
      HasIdCons(ts[0], ts[1..]);
      DistinctCons(ts[0], ts[1..]);
      if ts[0].id == x {
        assert r[1..] == ts[1..];
        HasIdCons(r[0], ts[1..]);
        DistinctCons(r[0], ts[1..]);
      } else {
        var rest := Bump(ts[1..], x);
        assert r == [ts[0]] + rest && r[1..] == rest;
        BumpCounts(ts[1..], x);
        HasIdCons(ts[0], rest);
        DistinctCons(ts[0], rest);
      }
    }
  }

  /** The `$group` stage over a sequence of keys. */
  function TalliesOf(ids: seq<Id>): seq<Tally> {
    if ids == [] then [] else Bump(TalliesOf(ids[..|ids| - 1]), ids[|ids| - 1])
  }

  /**
   * The groups are keyed by distinct ids, one per id that occurs, each
   * holding that id's number of occurrences, and they add up to the count.
   */
  lemma {:induction false} TalliesOfCorrect(ids: seq<Id>)
    ensures var ts := TalliesOf(ids);
      && Distinct(ts) && AllPositive(ts)
      && (forall y :: TallyOf(ts, y) == Count(ids, y))
      && (forall y :: HasId(ts, y) <==> y in ids)
      && SumOf(ts) == |ids|
  {
    if ids != [] {
      var init := ids[..|ids| - 1];
      assert ids == init + [ids[|ids| - 1]];
      TalliesOfCorrect(init);
      BumpCounts(TalliesOf(init), ids[|ids| - 1]);
    }
  }

  /** In a keyed sequence, the lookup finds the group's own total. */
  lemma {:induction false} TallyAt(ts: seq<Tally>, i: nat)
    requires Distinct(ts) && i < |ts|
    ensures TallyOf(ts, ts[i].id) == ts[i].totalBorrows
  {
    if i > 0 {
      assert ts[0].id != ts[i].id;
      assert Distinct(ts[1..]) by {
        forall a, b | 0 <= a < |ts| - 1 && 0 <= b < |ts| - 1 && ts[1..][a].id == ts[1..][b].id
          ensures a == b
        {
          assert ts[a + 1].id == ts[b + 1].id;
        }
      }
      TallyAt(ts[1..], i - 1);
    }
  }

  // ---------------------------------------------------------------------------
  // Sorting

  predicate SortedDesc(ts: seq<Tally>) {
    forall i, j | 0 <= i < j < |ts| :: ts[i].totalBorrows >= ts[j].totalBorrows
  }

  function Insert(t: Tally, ts: seq<Tally>): (r: seq<Tally>)
    requires SortedDesc(ts)
    ensures |r| == |ts| + 1
    ensures SortedDesc(r)
    ensures ts != [] ==> r[0] == t || r[0] == ts[0]
    ensures multiset(r) == multiset(ts) + multiset{t}
  {
    if ts == [] || t.totalBorrows >= ts[0].totalBorrows then [t] + ts
    else
      var rest := Insert(t, ts[1..]);
      assert ts == [ts[0]] + ts[1..];
      ConsSorted(ts[0], rest);
      [ts[0]] + rest
  }

  /** Inserting adds the new key to the keys, and keeps them distinct when it is new. */
  lemma {:induction false} InsertKeys(t: Tally, ts: seq<Tally>)
    requires SortedDesc(ts)
    ensures forall y :: HasId(Insert(t, ts), y) <==> HasId(ts, y) || y == t.id
    ensures Distinct(ts) && !HasId(ts, t.id) ==> Distinct(Insert(t, ts))
    ensures SumOf(Insert(t, ts)) == SumOf(ts) + t.totalBorrows
  {
    if ts == [] || t.totalBorrows >= ts[0].totalBorrows {
      assert ([t] + ts)[1..] == ts;
      HasIdCons(t, ts);
      DistinctCons(t, ts);
    } else {
      var rest := Insert(t, ts[1..]);
      assert ts == [ts[0]] + ts[1..];
      assert ([ts[0]] + rest)[1..] == rest;
      InsertKeys(t, ts[1..]);
      HasIdCons(ts[0], ts[1..]);
      DistinctCons(ts[0], ts[1..]);
      HasIdCons(ts[0], rest);
      DistinctCons(ts[0], rest);
    }
  }

  lemma ConsSorted(x: Tally, ts: seq<Tally>)
    requires SortedDesc(ts) && (ts != [] ==> x.totalBorrows >= ts[0].totalBorrows)
    ensures SortedDesc([x] + ts)
  {
    var r := [x] + ts;
    forall i, j | 0 <= i < j < |r|
      ensures r[i].totalBorrows >= r[j].totalBorrows
    {
      if i > 0 {
        assert r[i] == ts[i - 1] && r[j] == ts[j - 1];
      } else if j > 1 {
        assert ts[0].totalBorrows >= ts[j - 1].totalBorrows;
      }
    }
  }

  /** `$sort: { totalBorrows: -1 }`. */
  function SortDesc(ts: seq<Tally>): (r: seq<Tally>)
    ensures SortedDesc(r)
    ensures multiset(r) == multiset(ts)
  {
    if ts == [] then []
    else
      assert ts == [ts[0]] + ts[1..];
      Insert(ts[0], SortDesc(ts[1..]))
  }

  /** Sorting keeps the keys and their distinctness. */
  lemma {:induction false} SortKeys(ts: seq<Tally>)
    ensures forall y :: HasId(SortDesc(ts), y) <==> HasId(ts, y)
    ensures Distinct(ts) ==> Distinct(SortDesc(ts))
    ensures SumOf(SortDesc(ts)) == SumOf(ts)
  {
    if ts != [] {
      assert ts == [ts[0]] + ts[1..];
      SortKeys(ts[1..]);
      HasIdCons(ts[0], ts[1..]);
      DistinctCons(ts[0], ts[1..]);
      InsertKeys(ts[0], SortDesc(ts[1..]));
    }
  }

  /** Groups then sort: the ranking of the keys by number of occurrences. */
  function Ranking(ids: seq<Id>): seq<Tally> {
    SortDesc(TalliesOf(ids))
  }

  /**
   * `r` ranks the keys of `ids`: one group per key that occurs, each with
   * that key's number of occurrences, in non-increasing order of totals, the
   * totals adding up to the number of records.
   */
  predicate IsRanking(ids: seq<Id>, r: seq<Tally>) {
    && SortedDesc(r)
    && Distinct(r)
    && (forall i | 0 <= i < |r| :: r[i].totalBorrows == Count(ids, r[i].id) > 0)
    && (forall y | y in ids :: HasId(r, y))
    && SumOf(r) == |ids|
  }

  lemma RankingCorrect(ids: seq<Id>)
    ensures IsRanking(ids, Ranking(ids))
  {
    var ts := TalliesOf(ids);
    var r := Ranking(ids);
    TalliesOfCorrect(ids);
    SortKeys(ts);
    forall i | 0 <= i < |r|
      ensures r[i].totalBorrows == Count(ids, r[i].id) > 0
    {
      assert r[i] in multiset(ts);
      var j :| 0 <= j < |ts| && ts[j] == r[i];
      TallyAt(ts, j);
    }
  }

  function BookIds(ledger: seq<Loan>): (r: seq<Id>)
    ensures |r| == |ledger| && forall k | 0 <= k < |ledger| :: r[k] == ledger[k].bookId
  {
    seq(|ledger|, k requires 0 <= k < |ledger| => ledger[k].bookId)
  }

  function UserIds(ledger: seq<Loan>): (r: seq<Id>)
    ensures |r| == |ledger| && forall k | 0 <= k < |ledger| :: r[k] == ledger[k].userId
  {
    seq(|ledger|, k requires 0 <= k < |ledger| => ledger[k].userId)
  }

  // ---------------------------------------------------------------------------
  // viewMostBorrowedBooksController

  /** `$ifNull: ["$book", "$_id"]`: the joined book, or the raw id when there is none. */
  datatype BookRef = Found(id: Id, book: Book) | RawId(id: Id)

  datatype BookRow = BookRow(totalBorrows: nat, book: BookRef)

  /** The `$lookup` and `$unwind` with `preserveNullAndEmptyArrays`, then `$ifNull`. */
  function JoinBook(books: map<Id, Book>, t: Tally): (row: BookRow)
    ensures row.totalBorrows == t.totalBorrows && row.book.id == t.id
    ensures row.book.Found? <==> t.id in books
    ensures row.book.Found? ==> row.book.book == books[t.id]
  {
    BookRow(t.totalBorrows, if t.id in books then Found(t.id, books[t.id]) else RawId(t.id))
  }

  /** The join applied to every group, in order. */
  function JoinBooks(books: map<Id, Book>, ts: seq<Tally>): (rows: seq<BookRow>)
    ensures |rows| == |ts|
    ensures forall i | 0 <= i < |ts| :: rows[i] == JoinBook(books, ts[i])
  {
    if ts == [] then [] else [JoinBook(books, ts[0])] + JoinBooks(books, ts[1..])
  }

  function MostBorrowedBooks(ledger: seq<Loan>, books: map<Id, Book>): seq<BookRow> {
    JoinBooks(books, Ranking(BookIds(ledger)))
  }

  /**
   * One row per book that has records, with its number of records (borrowed
   * or returned), rows ordered by that number, and the numbers adding up to
   * the ledger's length; a book missing from the catalog keeps its raw id.
   */
  lemma MostBorrowedBooksCorrect(ledger: seq<Loan>, books: map<Id, Book>)
    ensures var rows := MostBorrowedBooks(ledger, books);
      && (forall i, j | 0 <= i < j < |rows| :: rows[i].totalBorrows >= rows[j].totalBorrows)
      && (forall i, j | 0 <= i < |rows| && 0 <= j < |rows| && rows[i].book.id == rows[j].book.id :: i == j)
      && (forall i | 0 <= i < |rows| :: rows[i].totalBorrows == Count(BookIds(ledger), rows[i].book.id) > 0)
      && (forall k | 0 <= k < |ledger| :: exists i | 0 <= i < |rows| :: rows[i].book.id == ledger[k].bookId)
      && (forall i | 0 <= i < |rows| :: rows[i].book.RawId? <==> rows[i].book.id !in books)
      && RowsTotal(rows) == |ledger|
  {
    var ids := BookIds(ledger);
    var r := Ranking(ids);
    var rows := MostBorrowedBooks(ledger, books);
    RankingCorrect(ids);
    RankedBookRows(ids, r, books, rows);
    forall k | 0 <= k < |ledger|
      ensures exists i | 0 <= i < |rows| :: rows[i].book.id == ledger[k].bookId
    {
      assert ids[k] in ids;
    }
    JoinBooksTotal(books, r);
  }

  /** The rows of a ranking of keys, joined against the catalog. */
  lemma RankedBookRows(ids: seq<Id>, r: seq<Tally>, books: map<Id, Book>, rows: seq<BookRow>)
    requires IsRanking(ids, r)
    requires |rows| == |r| && forall i | 0 <= i < |r| :: rows[i] == JoinBook(books, r[i])
    ensures forall i, j | 0 <= i < j < |rows| :: rows[i].totalBorrows >= rows[j].totalBorrows
    ensures forall i, j | 0 <= i < |rows| && 0 <= j < |rows| && rows[i].book.id == rows[j].book.id :: i == j
    ensures forall i | 0 <= i < |rows| :: rows[i].totalBorrows == Count(ids, rows[i].book.id) > 0
    ensures forall y | y in ids :: exists i | 0 <= i < |rows| :: rows[i].book.id == y
    ensures forall i | 0 <= i < |rows| :: rows[i].book.RawId? <==> rows[i].book.id !in books
  {
    forall y | y in ids
      ensures exists i | 0 <= i < |rows| :: rows[i].book.id == y
    {
      assert HasId(r, y);
      var i :| 0 <= i < |r| && r[i].id == y;
      assert rows[i].book.id == y;
    }
  }

  function RowsTotal(rows: seq<BookRow>): nat {
    if rows == [] then 0 else rows[0].totalBorrows + RowsTotal(rows[1..])
  }

  lemma {:induction false} JoinBooksTotal(books: map<Id, Book>, ts: seq<Tally>)
    ensures RowsTotal(JoinBooks(books, ts)) == SumOf(ts)
  {
    if ts != [] {
      assert JoinBooks(books, ts)[1..] == JoinBooks(books, ts[1..]);
      JoinBooksTotal(books, ts[1..]);
    }
  }

  // ---------------------------------------------------------------------------
  // viewMostActiveMembersController

  /** The joined user document, with its id. */
  datatype Member = Member(id: Id, user: UserModel.User)

  /** A row; the `user` field is absent when the user was not found. */
  datatype MemberRow = MemberRow(totalBorrows: nat, user: Option<Member>)

  function JoinUser(users: map<Id, UserModel.User>, t: Tally): (row: MemberRow)
    ensures row.totalBorrows == t.totalBorrows
    ensures row.user.Some? <==> t.id in users
    ensures row.user.Some? ==> row.user.value == Member(t.id, users[t.id])
  {
    MemberRow(t.totalBorrows, if t.id in users then Some(Member(t.id, users[t.id])) else None)
  }

  /** The join applied to every group, in order. */
  function JoinUsers(users: map<Id, UserModel.User>, ts: seq<Tally>): (rows: seq<MemberRow>)
    ensures |rows| == |ts|
    ensures forall i | 0 <= i < |ts| :: rows[i] == JoinUser(users, ts[i])
  {
    if ts == [] then [] else [JoinUser(users, ts[0])] + JoinUsers(users, ts[1..])
  }

  function MostActiveMembers(ledger: seq<Loan>, users: map<Id, UserModel.User>): seq<MemberRow> {
    JoinUsers(users, Ranking(UserIds(ledger)))
  }

  /**
   * Rows are in non-increasing order of records per user, one row per user
   * with records; a user still in the collection appears once, with the
   * number of records carrying that user's id.
   */
  lemma MostActiveMembersCorrect(ledger: seq<Loan>, users: map<Id, UserModel.User>)
    ensures var rows := MostActiveMembers(ledger, users);
      && |rows| == |Ranking(UserIds(ledger))|
      && (forall i, j | 0 <= i < j < |rows| :: rows[i].totalBorrows >= rows[j].totalBorrows)
      && (forall i | 0 <= i < |rows| :: rows[i].totalBorrows > 0)
      && (forall i, j | 0 <= i < |rows| && 0 <= j < |rows| && rows[i].user.Some? && rows[j].user.Some? &&
            rows[i].user.value.id == rows[j].user.value.id :: i == j)
      && (forall i | 0 <= i < |rows| && rows[i].user.Some? ::
            rows[i].totalBorrows == Count(UserIds(ledger), rows[i].user.value.id))
      && (forall k | 0 <= k < |ledger| && ledger[k].userId in users ::
            exists i | 0 <= i < |rows| :: rows[i].user == Some(Member(ledger[k].userId, users[ledger[k].userId])))
  {
    var ids := UserIds(ledger);
    var rows := MostActiveMembers(ledger, users);
    RankingCorrect(ids);
    RankedMemberRows(ids, Ranking(ids), users, rows);
    forall k | 0 <= k < |ledger| && ledger[k].userId in users
      ensures exists i | 0 <= i < |rows| :: rows[i].user == Some(Member(ledger[k].userId, users[ledger[k].userId]))
    {
      assert ids[k] in ids;
    }
  }

  /** The rows of a ranking of keys, joined against the users. */
  lemma RankedMemberRows(ids: seq<Id>, r: seq<Tally>, users: map<Id, UserModel.User>, rows: seq<MemberRow>)
    requires IsRanking(ids, r)
    requires |rows| == |r| && forall i | 0 <= i < |r| :: rows[i] == JoinUser(users, r[i])
    ensures forall i, j | 0 <= i < j < |rows| :: rows[i].totalBorrows >= rows[j].totalBorrows
    ensures forall i | 0 <= i < |rows| :: rows[i].totalBorrows > 0
    ensures forall i, j | 0 <= i < |rows| && 0 <= j < |rows| && rows[i].user.Some? && rows[j].user.Some? &&
      rows[i].user.value.id == rows[j].user.value.id :: i == j
    ensures forall i | 0 <= i < |rows| && rows[i].user.Some? ::
      rows[i].totalBorrows == Count(ids, rows[i].user.value.id)
    ensures forall y | y in ids && y in users :: exists i | 0 <= i < |rows| :: rows[i].user == Some(Member(y, users[y]))
  {
    forall i, j | 0 <= i < |rows| && 0 <= j < |rows| && rows[i].user.Some? && rows[j].user.Some? &&
        rows[i].user.value.id == rows[j].user.value.id
      ensures i == j
    {
      assert r[i].id == r[j].id;
    }
    forall y | y in ids && y in users
      ensures exists i | 0 <= i < |rows| :: rows[i].user == Some(Member(y, users[y]))
    {
      assert HasId(r, y);
      var i :| 0 <= i < |r| && r[i].id == y;
      assert rows[i].user == Some(Member(y, users[y]));
    }
  }

  // ---------------------------------------------------------------------------
  // viewBooksSummaryController

  datatype Summary = Summary(totalBooks: int, totalAvailableBooks: int, totalBorrowedBooks: int)

  function SumTotal(books: seq<Book>): int {
    if books == [] then 0 else books[0].totalCopies + SumTotal(books[1..])
  }

  function SumAvailable(books: seq<Book>): int {
    if books == [] then 0 else books[0].availableCopies + SumAvailable(books[1..])
  }

  /**
   * The `$group` with `_id: null` and the `$project`; an empty collection
   * yields no group, and the handler answers with zeros.
   */
  function AvailabilitySummary(books: seq<Book>): (s: Summary)
    ensures books == [] ==> s == Summary(0, 0, 0)
    ensures books != [] ==>
      s.totalBooks == SumTotal(books) && s.totalAvailableBooks == SumAvailable(books)
    ensures s.totalBorrowedBooks == s.totalBooks - s.totalAvailableBooks
  {
    if books == [] then Summary(0, 0, 0)
    else
      var totalBooks, totalAvailableBooks := SumTotal(books), SumAvailable(books);
      Summary(totalBooks, totalAvailableBooks, totalBooks - totalAvailableBooks)
  }

  /** Over a catalog of valid books the counts are bounded: 0 <= available <= total, so borrowed is too. */
  lemma {:induction false} SummaryBounds(books: seq<Book>)
    requires forall i | 0 <= i < |books| :: ValidBook(books[i])
    ensures var s := AvailabilitySummary(books);
      0 <= s.totalAvailableBooks <= s.totalBooks && 0 <= s.totalBorrowedBooks <= s.totalBooks
  {
    if books != [] {
      ValidBookBounds(books[0]);
      SummaryBounds(books[1..]);
    }
  }

  lemma {:induction false} SumsAppend(books: seq<Book>, b: Book)
    ensures SumTotal(books + [b]) == SumTotal(books) + b.totalCopies
    ensures SumAvailable(books + [b]) == SumAvailable(books) + b.availableCopies
  {
    if books != [] {
      assert (books + [b])[1..] == books[1..] + [b];
      SumsAppend(books[1..], b);
    }
  }

  /** Each document contributes its own counts. */
  lemma SummaryAppend(books: seq<Book>, b: Book)
    ensures var s, t := AvailabilitySummary(books), AvailabilitySummary(books + [b]);
      && t.totalBooks == s.totalBooks + b.totalCopies
      && t.totalAvailableBooks == s.totalAvailableBooks + b.availableCopies
      && t.totalBorrowedBooks == s.totalBorrowedBooks + (b.totalCopies - b.availableCopies)
  {
    SumsAppend(books, b);
  }
}
