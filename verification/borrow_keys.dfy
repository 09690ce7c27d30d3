/** Borrow entry keys. `borrow_book` keys a new loan `"BL" + (len + 1)`,
    but `delete_book` removes entries from the middle of the borrow list,
    after which that key can still be in use: the new loan then replaces
    an older one. This module shows what is lost, and gives the borrow
    with a fresh key that the rest of the program evidently expects. */
module BorrowKeys {
  import opened Basics
  import opened OrderedDict
  import opened Library
  import opened Integrity
  import opened Views

  // The borrow as written

  /** A borrow whose key `"BL" + (len + 1)` is already taken by the only
      entry of another lent book's last loan replaces that entry: the other
      book is still lent, but `view_pending` no longer finds its loan, where
      before the borrow it showed the due date. */
  lemma BorrowOverwritesLoan(s: State, person: string, date: string, time: string,
                             title: string, author: string, dateReturn: string, b: nat, k: nat)
    requires Valid(s)
    requires FindFirst(s.books, Borrowable(title, author)).Some?
    requires b < |s.books| && b != FindFirst(s.books, Borrowable(title, author)).value
    requires |s.books[b].1.borrowers| > 0
    requires k < |s.borrowList| && s.borrowList[k].0 == BorrowId(|s.borrowList| + 1)
    requires s.borrowList[k].1.logId == s.books[b].1.borrowers[|s.books[b].1.borrowers| - 1]
    requires forall j | 0 <= j < |s.borrowList| && s.borrowList[j].1.logId == s.borrowList[k].1.logId :: j == k
    ensures PendingInfo(s, s.books[b].1).Ok? && PendingInfo(s, s.books[b].1).value.Due?
    ensures var r := BorrowBook(s, person, date, time, title, author, dateReturn);
      && r.books[b] == s.books[b]
      && PendingInfo(r, r.books[b].1) == Ok(BorrowEntryMissing)
  {
    var book := s.books[b].1;
    BorrowLogIdsAreKeys(s.logbook, book.borrowers[|book.borrowers| - 1]);
    LoanOnRecordShowsDue(s, book, k);
    BorrowLosesLoan(s, person, date, time, title, author, dateReturn, b, k);
  }

  lemma BorrowLosesLoan(s: State, person: string, date: string, time: string,
                        title: string, author: string, dateReturn: string, b: nat, k: nat)
    requires Valid(s)
    requires FindFirst(s.books, Borrowable(title, author)).Some?
    requires b < |s.books| && b != FindFirst(s.books, Borrowable(title, author)).value
    requires |s.books[b].1.borrowers| > 0
    requires k < |s.borrowList| && s.borrowList[k].0 == BorrowId(|s.borrowList| + 1)
    requires s.borrowList[k].1.logId == s.books[b].1.borrowers[|s.books[b].1.borrowers| - 1]
    requires forall j | 0 <= j < |s.borrowList| && s.borrowList[j].1.logId == s.borrowList[k].1.logId :: j == k
    ensures var r := BorrowBook(s, person, date, time, title, author, dateReturn);
      && r.books[b] == s.books[b]
      && PendingInfo(r, r.books[b].1) == Ok(BorrowEntryMissing)
  {
    var book := s.books[b].1;
    var last := book.borrowers[|book.borrowers| - 1];
    BorrowLogIdsAreKeys(s.logbook, last);
    var i := FindFirst(s.books, Borrowable(title, author)).value;
    var r := BorrowBook(s, person, date, time, title, author, dateReturn);
    var borrowId := BorrowId(|s.borrowList| + 1);
    var loan := BorrowEntry(s.books[i].0, LogId(|s.logbook| + 1), dateReturn);
    NextLogIdFresh(s.logbook);
    ReplacedLoanGone(s.borrowList, r.borrowList, borrowId, loan, last, k);
    MissingLoanShows(r, book);
  }

  /** When `r` is `before` with the entry under `borrowId` replaced or added
      as `loan`, and that key held the only entry of loan `last`, no entry
      of `r` records `last` any more. */
  lemma ReplacedLoanGone(before: Dict<BorrowEntry>, r: Dict<BorrowEntry>, borrowId: string,
                         loan: BorrowEntry, last: string, k: nat)
    requires UniqueKeys(r) && Get(r, borrowId) == Some(loan) && loan.logId != last
    requires forall j | 0 <= j < |r| :: r[j] == (borrowId, loan) || (j < |before| && r[j] == before[j])
    requires k < |before| && before[k].0 == borrowId
    requires forall j | 0 <= j < |before| && before[j].1.logId == last :: j == k
    ensures FindFirst(r, LoanOf(last)).None?
  {
    forall j | 0 <= j < |r| ensures !LoanOf(last)(r[j]) {
      if r[j] != (borrowId, loan) {
        assert r[j].0 != borrowId;
        assert j != k;
      }
    }
  }

  /** A lent book whose last loan has no borrow entry shows "Borrower
      information not found". */
  lemma MissingLoanShows(s: State, book: Book)
    requires |book.borrowers| > 0
    requires FindFirst(s.borrowList, LoanOf(book.borrowers[|book.borrowers| - 1])).None?
    ensures PendingInfo(s, book) == Ok(BorrowEntryMissing)
  {
  }

  // The borrow with a fresh key

  /** A dictionary has no more distinct keys than entries. */
  lemma {:induction false} KeySetSize<V>(d: Dict<V>)
    ensures |KeySet(d)| <= |d|
    decreases |d|
  {
    if |d| == 0 {
      assert KeySet(d) == {};
    } else {
      var front := d[..|d| - 1];
      assert front + [d[|d| - 1]] == d;
      KeySetAppend(front, d[|d| - 1]);
      KeySetSize(front);
    }
  }

  /** The keys BL`a`, ..., BL`(a + n - 1)`. */
  function BorrowIdRange(a: nat, n: nat): set<string> {
    set m | a <= m < a + n :: BorrowId(m)
  }

  /** Distinct numbers give distinct keys, so a range of `n` numbers gives
      `n` keys. */
  lemma {:induction false} BorrowIdRangeSize(a: nat, n: nat)
    ensures |BorrowIdRange(a, n)| == n
    decreases n
  {
    if n == 0 {
      assert BorrowIdRange(a, n) == {};
    } else {
      var top := BorrowId(a + n - 1);
      assert BorrowIdRange(a, n) == BorrowIdRange(a, n - 1) + {top};
      forall m | a <= m < a + n - 1 ensures BorrowId(m) != top {
        PrefixedIdsDistinct("BL", m, a + n - 1);
      }
      BorrowIdRangeSize(a, n - 1);
    }
  }

  /** Of the `len + 1` keys BL`(len + 1)` ... BL`(2 len + 1)` at least one
      is free. */
  lemma SomeBorrowIdFree(d: Dict<BorrowEntry>)
    ensures exists m | |d| + 1 <= m <= 2 * |d| + 1 :: BorrowId(m) !in KeySet(d)
  {
    var range := BorrowIdRange(|d| + 1, |d| + 1);
    BorrowIdRangeSize(|d| + 1, |d| + 1);
    KeySetSize(d);
    var free := range - KeySet(d);
    assert |range| == |free| + |range * KeySet(d)|;
    assert range * KeySet(d) <= KeySet(d);
    SubsetSize(range * KeySet(d), KeySet(d));
    var x :| x in free;
    var m :| |d| + 1 <= m < 2 * |d| + 2 && x == BorrowId(m);
  }

  lemma SubsetSize<T>(a: set<T>, b: set<T>)
    requires a <= b
    ensures |a| <= |b|
  {
    assert b == a + (b - a);
  }

  /** The first free key number from `m` upward. */
  function FreeBorrowNumber(d: Dict<BorrowEntry>, m: nat): (r: nat)
    requires exists m' | m <= m' <= 2 * |d| + 1 :: BorrowId(m') !in KeySet(d)
    ensures m <= r <= 2 * |d| + 1
    ensures BorrowId(r) !in KeySet(d)
    ensures forall m' | m <= m' < r :: BorrowId(m') in KeySet(d)
    decreases 2 * |d| + 1 - m
  {
    if BorrowId(m) !in KeySet(d) then m else FreeBorrowNumber(d, m + 1)
  }

  /** The key of a new loan: BL`(len + 1)` when it is free, otherwise the
      next free BL key above it. */
  function FreshBorrowId(d: Dict<BorrowEntry>): (r: string)
    ensures r !in KeySet(d) && r != ""
    ensures exists n | |d| + 1 <= n :: r == BorrowId(n) && forall m | |d| + 1 <= m < n :: BorrowId(m) in KeySet(d)
    ensures BorrowId(|d| + 1) !in KeySet(d) ==> r == BorrowId(|d| + 1)
  {
    SomeBorrowIdFree(d);
    var n := FreeBorrowNumber(d, |d| + 1);
    assert BorrowId(n)[0] == 'B';
    BorrowId(n)
  }

  /** `borrow_book` with a fresh borrow entry key: it logs and lends as the
      program does, but the new loan is appended and every earlier borrow
      entry is kept. Where the program's key is free the two agree. */
  function BorrowBookFresh(s: State, person: string, date: string, time: string,
                           title: string, author: string, dateReturn: string): (r: State)
    ensures r.logbook == AppendLog(s.logbook, LogEntry(person, date, time, Borrow))
    ensures match FindFirst(s.books, Borrowable(title, author))
      case None => r.books == s.books && r.borrowList == s.borrowList
      case Some(i) =>
        && r.books == BorrowBook(s, person, date, time, title, author, dateReturn).books
        && r.borrowList == s.borrowList +
             [(FreshBorrowId(s.borrowList), BorrowEntry(s.books[i].0, LogId(|s.logbook| + 1), dateReturn))]
    ensures BorrowId(|s.borrowList| + 1) !in KeySet(s.borrowList) ==>
      r == BorrowBook(s, person, date, time, title, author, dateReturn)
  {
    var logId := LogId(|s.logbook| + 1);
    var logged := s.(logbook := AppendLog(s.logbook, LogEntry(person, date, time, Borrow)));
    match FindFirst(s.books, Borrowable(title, author))
    case None => logged
    case Some(i) => LendBook(logged, i, FreshBorrowId(s.borrowList), logId, dateReturn)
  }

  /** The fresh-key borrow keeps the rules. */
  lemma BorrowBookFreshPreservesValid(s: State, person: string, date: string, time: string,
                                      title: string, author: string, dateReturn: string)
    requires Valid(s)
    ensures Valid(BorrowBookFresh(s, person, date, time, title, author, dateReturn))
  {
    var entry := LogEntry(person, date, time, Borrow);
    AppendLogKeepsBorrowLogIds(s.logbook, entry);
    var logged := s.(logbook := AppendLog(s.logbook, entry));
    assert Valid(logged);
    match FindFirst(s.books, Borrowable(title, author))
    case None =>
    case Some(i) =>
      LendBookPreservesValid(logged, i, FreshBorrowId(s.borrowList), LogId(|s.logbook| + 1), dateReturn);
  }

  /** With fresh keys, lending one book never changes what `view_pending`
      reports for any other book. */
  lemma BorrowFreshKeepsOtherLoans(s: State, person: string, date: string, time: string,
                                   title: string, author: string, dateReturn: string, b: nat)
    requires Valid(s)
    requires FindFirst(s.books, Borrowable(title, author)).Some?
    requires b < |s.books| && b != FindFirst(s.books, Borrowable(title, author)).value
    ensures var r := BorrowBookFresh(s, person, date, time, title, author, dateReturn);
      && r.books[b] == s.books[b]
      && PendingInfo(r, r.books[b].1) == PendingInfo(s, s.books[b].1)
  {
    var book := s.books[b].1;
    var i := FindFirst(s.books, Borrowable(title, author)).value;
    var r := BorrowBookFresh(s, person, date, time, title, author, dateReturn);
    var logId := LogId(|s.logbook| + 1);
    var loan := BorrowEntry(s.books[i].0, logId, dateReturn);
    var entry := LogEntry(person, date, time, Borrow);
    assert r.books[b] == s.books[b];
    NextLogIdFresh(s.logbook);
    forall j | 0 <= j < |book.borrowers| ensures book.borrowers[j] != logId {
      BorrowLogIdsAreKeys(s.logbook, book.borrowers[j]);
    }
    assert r.logbook == s.logbook + [(logId, entry)];
    PendingAfterAppend(s, r, book, (FreshBorrowId(s.borrowList), loan), (logId, entry));
  }

  /** Appending a borrow entry and a log record that belong to none of a
      book's loans leaves what `view_pending` reports for it unchanged. */
  lemma PendingAfterAppend(s: State, r: State, book: Book, e: (string, BorrowEntry), log: (string, LogEntry))
    requires r.borrowList == s.borrowList + [e] && r.logbook == s.logbook + [log]
    requires e.1.logId !in book.borrowers && log.0 !in book.borrowers
    ensures PendingInfo(r, book) == PendingInfo(s, book)
  {
    if |book.borrowers| > 0 {
      var last := book.borrowers[|book.borrowers| - 1];
      FindFirstAppend(s.borrowList, e, LoanOf(last));
      GetAppend(s.logbook, log, last);
      match FindFirst(s.borrowList, LoanOf(last))
      case None =>
      case Some(k) =>
        assert r.borrowList[k] == s.borrowList[k];
    }
  }
}
