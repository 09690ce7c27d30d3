/** The read-only reports of the program, with their console output
    replaced by the list of records they print. The reports index
    `books[...]` and `logbook[...]` without a guard; a missing key raises
    Python's `KeyError`, which nothing in the menu loop catches, so the
    program stops. That outcome is `KeyError(key)` here. */
module Views {
  import opened Basics
  import opened OrderedDict
  import opened Library
  import opened Integrity

  datatype Outcome<+T> = Ok(value: T) | KeyError(key: string)

  /** One record of `view_all_entries` and `view_expected_returns`: a borrow
      entry with the book it names and the log entry of its borrower. */
  datatype EntryRow = EntryRow(borrowId: string, entry: BorrowEntry, book: Book, borrower: LogEntry)

  /** Both lookups a borrow entry's record needs succeed. */
  predicate Resolves(s: State, e: BorrowEntry) {
    e.bookId in KeySet(s.books) && e.logId in KeySet(s.logbook)
  }

  /** The key a borrow entry's record stops on: the book is looked up
      before the log entry. */
  function MissingKey(s: State, e: BorrowEntry): string {
    if e.bookId !in KeySet(s.books) then e.bookId else e.logId
  }

  /** Entry `i` is the first of `entries` whose record cannot be built. */
  predicate FirstUnresolved(s: State, entries: Dict<BorrowEntry>, i: int) {
    && 0 <= i < |entries|
    && !Resolves(s, entries[i].1)
    && forall j | 0 <= j < i :: Resolves(s, entries[j].1)
  }

  /** The borrow id and entry each record shows. */
  function RowEntries(rows: seq<EntryRow>): Dict<BorrowEntry> {
    seq(|rows|, j requires 0 <= j < |rows| => (rows[j].borrowId, rows[j].entry))
  }

  /** Builds the records of `entries` in order, looking up the book before
      the log entry as the program does. */
  function JoinEntries(s: State, entries: Dict<BorrowEntry>): (r: Outcome<seq<EntryRow>>)
    ensures r.Ok? <==> forall i | 0 <= i < |entries| :: Resolves(s, entries[i].1)
    ensures r.Ok? ==> |r.value| == |entries| && RowEntries(r.value) == entries
    ensures r.Ok? ==> forall i | 0 <= i < |entries| ::
      && r.value[i].borrowId == entries[i].0
      && r.value[i].entry == entries[i].1
      && Get(s.books, entries[i].1.bookId) == Some(r.value[i].book)
      && Get(s.logbook, entries[i].1.logId) == Some(r.value[i].borrower)
    ensures r.KeyError? ==> exists i | FirstUnresolved(s, entries, i) :: r.key == MissingKey(s, entries[i].1)
    decreases |entries|
  {
    if |entries| == 0 then Ok([])
    else
      var (id, e) := entries[0];
      match Get(s.books, e.bookId)
      case None => KeyError(e.bookId)
      case Some(book) =>
        match Get(s.logbook, e.logId)
        case None => KeyError(e.logId)
        case Some(log) =>
          match JoinEntries(s, entries[1..])
          case KeyError(k) => FirstUnresolvedShifts(s, entries, k); KeyError(k)
          case Ok(rows) =>
            RowEntriesCons(EntryRow(id, e, book, log), rows, entries);
            Ok([EntryRow(id, e, book, log)] + rows)
  }

  lemma RowEntriesCons(row: EntryRow, rows: seq<EntryRow>, entries: Dict<BorrowEntry>)
    requires |entries| > 0 && entries[0] == (row.borrowId, row.entry)
    requires RowEntries(rows) == entries[1..]
    ensures RowEntries([row] + rows) == entries
  {
    var all := [row] + rows;
    forall j | 1 <= j < |all| ensures RowEntries(all)[j] == entries[j] {
      assert all[j] == rows[j - 1] && entries[j] == entries[1..][j - 1];
    }
  }

  lemma FirstUnresolvedShifts(s: State, entries: Dict<BorrowEntry>, k: string)
    requires |entries| > 0 && Resolves(s, entries[0].1)
    requires exists i | FirstUnresolved(s, entries[1..], i) :: k == MissingKey(s, entries[1..][i].1)
    ensures exists i | FirstUnresolved(s, entries, i) :: k == MissingKey(s, entries[i].1)
  {
    var i :| FirstUnresolved(s, entries[1..], i) && k == MissingKey(s, entries[1..][i].1);
    assert entries[i + 1] == entries[1..][i];
    forall j | 0 <= j < i + 1 ensures Resolves(s, entries[j].1) {
      if j > 0 { assert entries[j] == entries[1..][j - 1]; }
    }
    assert FirstUnresolved(s, entries, i + 1);
  }

  /** `view_all_entries`: every borrow entry, in order. */
  function ViewAllEntries(s: State): (r: Outcome<seq<EntryRow>>)
    ensures r.Ok? <==> forall i | 0 <= i < |s.borrowList| :: Resolves(s, s.borrowList[i].1)
    ensures r.Ok? ==> |r.value| == |s.borrowList|
    ensures r.Ok? ==> forall i | 0 <= i < |s.borrowList| ::
      && r.value[i].borrowId == s.borrowList[i].0
      && r.value[i].entry == s.borrowList[i].1
      && Get(s.books, s.borrowList[i].1.bookId) == Some(r.value[i].book)
      && Get(s.logbook, s.borrowList[i].1.logId) == Some(r.value[i].borrower)
    ensures r.KeyError? ==> exists i | FirstUnresolved(s, s.borrowList, i) :: r.key == MissingKey(s, s.borrowList[i].1)
  {
    JoinEntries(s, s.borrowList)
  }

  /** `view_expected_returns`: the borrow entries due back on `date`, in
      order. Only those entries are looked up. */
  function ViewExpectedReturns(s: State, date: string): (r: Outcome<seq<EntryRow>>)
    ensures r.Ok? <==> forall i | 0 <= i < |s.borrowList| && s.borrowList[i].1.dateReturn == date ::
      Resolves(s, s.borrowList[i].1)
    ensures r.Ok? ==> Subsequence(RowEntries(r.value), s.borrowList)
    ensures r.Ok? ==> forall j | 0 <= j < |r.value| ::
      && r.value[j].entry.dateReturn == date
      && (r.value[j].borrowId, r.value[j].entry) in s.borrowList
      && Get(s.books, r.value[j].entry.bookId) == Some(r.value[j].book)
      && Get(s.logbook, r.value[j].entry.logId) == Some(r.value[j].borrower)
    ensures r.Ok? ==> forall i | 0 <= i < |s.borrowList| && s.borrowList[i].1.dateReturn == date ::
      exists j | 0 <= j < |r.value| :: r.value[j].borrowId == s.borrowList[i].0 && r.value[j].entry == s.borrowList[i].1
    ensures r.KeyError? ==> exists i | 0 <= i < |s.borrowList| ::
      && s.borrowList[i].1.dateReturn == date
      && !Resolves(s, s.borrowList[i].1)
      && r.key == MissingKey(s, s.borrowList[i].1)
  {
    var due := Filter(s.borrowList, (e: (string, BorrowEntry)) => e.1.dateReturn == date);
    JoinFiltered(s, date, due);
    JoinEntries(s, due)
  }

  lemma JoinFiltered(s: State, date: string, due: Dict<BorrowEntry>)
    requires forall j | 0 <= j < |due| :: due[j] in s.borrowList && due[j].1.dateReturn == date
    requires forall i | 0 <= i < |s.borrowList| && s.borrowList[i].1.dateReturn == date :: s.borrowList[i] in due
    ensures var r := JoinEntries(s, due);
      && (r.Ok? <==> forall i | 0 <= i < |s.borrowList| && s.borrowList[i].1.dateReturn == date ::
            Resolves(s, s.borrowList[i].1))
      && (r.Ok? ==> forall i | 0 <= i < |s.borrowList| && s.borrowList[i].1.dateReturn == date ::
            exists j | 0 <= j < |r.value| :: r.value[j].borrowId == s.borrowList[i].0 && r.value[j].entry == s.borrowList[i].1)
      && (r.KeyError? ==> exists i | 0 <= i < |s.borrowList| ::
            && s.borrowList[i].1.dateReturn == date
            && !Resolves(s, s.borrowList[i].1)
            && r.key == MissingKey(s, s.borrowList[i].1))
  {
    var r := JoinEntries(s, due);
    forall j | 0 <= j < |due| ensures exists i | 0 <= i < |s.borrowList| :: s.borrowList[i] == due[j] {
      assert due[j] in s.borrowList;
    }
    if r.Ok? {
      forall i | 0 <= i < |s.borrowList| && s.borrowList[i].1.dateReturn == date
        ensures exists j | 0 <= j < |r.value| :: r.value[j].borrowId == s.borrowList[i].0 && r.value[j].entry == s.borrowList[i].1
      {
        var j :| 0 <= j < |due| && due[j] == s.borrowList[i];
        assert r.value[j].borrowId == due[j].0;
      }
    }
    if r.KeyError? {
      var j :| FirstUnresolved(s, due, j) && r.key == MissingKey(s, due[j].1);
      var i :| 0 <= i < |s.borrowList| && s.borrowList[i] == due[j];
    }
  }

  /** `view_transactions_per_day`: the log entries recorded on `date`. */
  function ViewTransactionsPerDay(s: State, date: string): (r: Dict<LogEntry>)
    ensures Subsequence(r, s.logbook)
    ensures forall j | 0 <= j < |r| :: r[j].1.date == date && r[j] in s.logbook
    ensures forall i | 0 <= i < |s.logbook| && s.logbook[i].1.date == date :: s.logbook[i] in r
  {
    Filter(s.logbook, (e: (string, LogEntry)) => e.1.date == date)
  }

  /** What `view_pending` prints under a lent book about its last loan. */
  datatype Pending =
    | NoBorrowerInfo                                  // empty List of Borrowers
    | BorrowEntryMissing                              // no borrow entry carries the last log id
    | Due(dateReturn: string, lastBorrower: string)

  datatype PendingRow = PendingRow(bookId: string, book: Book, info: Pending)

  /** `view_pending`'s search of the borrow entries: the loan `logId`. */
  function LoanOf(logId: string): ((string, BorrowEntry)) -> bool {
    (e: (string, BorrowEntry)) => e.1.logId == logId
  }

  /** Entry `k` is the first borrow entry, in order, recording loan
      `logId`: the one the search of `view_pending` stops at. */
  predicate FirstLoan(borrowList: Dict<BorrowEntry>, logId: string, k: int) {
    && 0 <= k < |borrowList|
    && borrowList[k].1.logId == logId
    && forall m | 0 <= m < k :: borrowList[m].1.logId != logId
  }

  /** The last loan of `book`: its last borrower's log id, the first borrow
      entry carrying that log id, and the borrower's name from the log. An
      entry keyed by the empty string counts as not found (`if borrow_key:`). */
  function PendingInfo(s: State, book: Book): (r: Outcome<Pending>)
    ensures (r == Ok(NoBorrowerInfo)) <==> |book.borrowers| == 0
    ensures |book.borrowers| > 0 ==>
      var last := book.borrowers[|book.borrowers| - 1];
      && (r == Ok(BorrowEntryMissing) <==> forall k | FirstLoan(s.borrowList, last, k) :: s.borrowList[k].0 == "")
      && (r.KeyError? <==>
            && (exists k | FirstLoan(s.borrowList, last, k) :: s.borrowList[k].0 != "")
            && last !in KeySet(s.logbook))
      && (r.KeyError? ==> r.key == last)
      && (r.Ok? && r.value.Due? ==>
            && (exists k | FirstLoan(s.borrowList, last, k) ::
                  s.borrowList[k].0 != "" && s.borrowList[k].1.dateReturn == r.value.dateReturn)
            && Get(s.logbook, last).Some?
            && Get(s.logbook, last).value.person == r.value.lastBorrower)
  {
    if |book.borrowers| == 0 then Ok(NoBorrowerInfo)
    else
      var last := book.borrowers[|book.borrowers| - 1];
      match FindFirst(s.borrowList, LoanOf(last))
      case None => Ok(BorrowEntryMissing)
      case Some(k) =>
        assert forall k' | FirstLoan(s.borrowList, last, k') :: k' == k;
        if s.borrowList[k].0 == "" then Ok(BorrowEntryMissing)
        else match Get(s.logbook, last)
          case None => KeyError(last)
          case Some(log) => Ok(Due(s.borrowList[k].1.dateReturn, log.person))
  }

  /** With no borrow entry keyed by the empty string, the outcome for a
      lent book depends only on whether some entry records its last loan,
      and the due date is that of the first such entry. */
  lemma PendingWithKeyedEntries(s: State, book: Book)
    requires NoEmptyKey(s.borrowList) && |book.borrowers| > 0
    ensures var last := book.borrowers[|book.borrowers| - 1];
      var r := PendingInfo(s, book);
      && (r == Ok(BorrowEntryMissing) <==> forall j | 0 <= j < |s.borrowList| :: s.borrowList[j].1.logId != last)
      && (r.KeyError? <==>
            (exists j | 0 <= j < |s.borrowList| :: s.borrowList[j].1.logId == last) && last !in KeySet(s.logbook))
      && (r.Ok? && r.value.Due? ==>
            && FindFirst(s.borrowList, LoanOf(last)).Some?
            && r.value.dateReturn == s.borrowList[FindFirst(s.borrowList, LoanOf(last)).value].1.dateReturn)
  {
    var last := book.borrowers[|book.borrowers| - 1];
    var f := FindFirst(s.borrowList, LoanOf(last));
    if f.Some? {
      assert FirstLoan(s.borrowList, last, f.value);
    }
  }

  /** When the borrow entries have non-empty keys, a lent book whose last
      loan is on record and logged shows when it is due and who has it. */
  lemma LoanOnRecordShowsDue(s: State, book: Book, k: nat)
    requires NoEmptyKey(s.borrowList)
    requires |book.borrowers| > 0
    requires k < |s.borrowList| && s.borrowList[k].1.logId == book.borrowers[|book.borrowers| - 1]
    requires book.borrowers[|book.borrowers| - 1] in KeySet(s.logbook)
    ensures PendingInfo(s, book).Ok? && PendingInfo(s, book).value.Due?
  {
    var last := book.borrowers[|book.borrowers| - 1];
    var f := FindFirst(s.borrowList, LoanOf(last));
    assert f.Some?;
    assert FirstLoan(s.borrowList, last, f.value);
  }

  /** The record `view_pending` prints for one book: none unless it is lent. */
  function RowOf(s: State, id: string, book: Book): (r: Outcome<seq<PendingRow>>)
    ensures book.status != Unavailable ==> r == Ok([])
    ensures book.status == Unavailable ==> (r.Ok? <==> PendingInfo(s, book).Ok?)
    ensures book.status == Unavailable && r.Ok? ==> r.value == [PendingRow(id, book, PendingInfo(s, book).value)]
    ensures r.Ok? ==> RowBooks(r.value) == [] || RowBooks(r.value) == [(id, book)]
    ensures r.KeyError? ==> book.status == Unavailable && PendingInfo(s, book) == KeyError(r.key)
  {
    if book.status != Unavailable then Ok([])
    else match PendingInfo(s, book)
      case KeyError(k) => KeyError(k)
      case Ok(info) => Ok([PendingRow(id, book, info)])
  }

  /** Every lent book of `books` has its pending information. */
  predicate AllPendingResolve(s: State, books: Dict<Book>) {
    forall i | 0 <= i < |books| && books[i].1.status == Unavailable :: PendingInfo(s, books[i].1).Ok?
  }

  /** Every record of `rows` is a lent book of `books` with its information. */
  predicate RowsSound(s: State, books: Dict<Book>, rows: seq<PendingRow>) {
    forall j | 0 <= j < |rows| ::
      && rows[j].book.status == Unavailable
      && (rows[j].bookId, rows[j].book) in books
      && PendingInfo(s, rows[j].book) == Ok(rows[j].info)
  }

  /** Every lent book of `books` has a record in `rows`. */
  predicate RowsComplete(books: Dict<Book>, rows: seq<PendingRow>) {
    forall i | 0 <= i < |books| && books[i].1.status == Unavailable ::
      exists j | 0 <= j < |rows| :: rows[j].bookId == books[i].0 && rows[j].book == books[i].1
  }

  /** Book `i` is the first lent book of `books` whose pending information
      stops on a missing key. */
  predicate FirstFailingBook(s: State, books: Dict<Book>, i: int) {
    && 0 <= i < |books|
    && books[i].1.status == Unavailable
    && PendingInfo(s, books[i].1).KeyError?
    && forall j | 0 <= j < i && books[j].1.status == Unavailable :: PendingInfo(s, books[j].1).Ok?
  }

  lemma FirstFailingBookShifts(s: State, books: Dict<Book>, k: string)
    requires |books| > 0 && (books[0].1.status == Unavailable ==> PendingInfo(s, books[0].1).Ok?)
    requires exists i | FirstFailingBook(s, books[1..], i) :: k == PendingInfo(s, books[1..][i].1).key
    ensures exists i | FirstFailingBook(s, books, i) :: k == PendingInfo(s, books[i].1).key
  {
    var i :| FirstFailingBook(s, books[1..], i) && k == PendingInfo(s, books[1..][i].1).key;
    assert books[i + 1] == books[1..][i];
    forall j | 0 <= j < i + 1 && books[j].1.status == Unavailable ensures PendingInfo(s, books[j].1).Ok? {
      if j > 0 { assert books[j] == books[1..][j - 1]; }
    }
    assert FirstFailingBook(s, books, i + 1);
  }

  lemma AllPendingResolveCons(s: State, books: Dict<Book>)
    requires |books| > 0
    ensures AllPendingResolve(s, books) <==>
      (books[0].1.status == Unavailable ==> PendingInfo(s, books[0].1).Ok?) && AllPendingResolve(s, books[1..])
  {
    assert forall i | 1 <= i < |books| :: books[i] == books[1..][i - 1];
    if !AllPendingResolve(s, books[1..]) {
      var i :| 0 <= i < |books[1..]| && books[1..][i].1.status == Unavailable && !PendingInfo(s, books[1..][i].1).Ok?;
      assert books[i + 1] == books[1..][i];
    }
  }

  lemma RowsSoundCons(s: State, books: Dict<Book>, first: seq<PendingRow>, rest: seq<PendingRow>)
    requires |books| > 0
    requires RowOf(s, books[0].0, books[0].1) == Ok(first)
    requires RowsSound(s, books[1..], rest)
    ensures RowsSound(s, books, first + rest)
  {
    var rows := first + rest;
    forall j | 0 <= j < |rows|
      ensures rows[j].book.status == Unavailable
      ensures (rows[j].bookId, rows[j].book) in books
      ensures PendingInfo(s, rows[j].book) == Ok(rows[j].info)
    {
      if j < |first| {
        assert rows[j] == first[j];
        assert books[0] == (books[0].0, books[0].1);
      } else {
        assert rows[j] == rest[j - |first|];
        assert (rest[j - |first|].bookId, rest[j - |first|].book) in books[1..];
      }
    }
  }

  lemma RowsCompleteCons(s: State, books: Dict<Book>, first: seq<PendingRow>, rest: seq<PendingRow>)
    requires |books| > 0
    requires RowOf(s, books[0].0, books[0].1) == Ok(first)
    requires RowsComplete(books[1..], rest)
    ensures RowsComplete(books, first + rest)
  {
    var rows := first + rest;
    forall i | 0 <= i < |books| && books[i].1.status == Unavailable
      ensures exists j | 0 <= j < |rows| :: rows[j].bookId == books[i].0 && rows[j].book == books[i].1
    {
      if i == 0 {
        assert rows[0] == first[0];
      } else {
        assert books[1..][i - 1] == books[i];
        var j :| 0 <= j < |rest| && rest[j].bookId == books[1..][i - 1].0 && rest[j].book == books[1..][i - 1].1;
        assert rows[|first| + j] == rest[j];
      }
    }
  }

  /** The id and book each record shows. */
  function RowBooks(rows: seq<PendingRow>): Dict<Book> {
    seq(|rows|, j requires 0 <= j < |rows| => (rows[j].bookId, rows[j].book))
  }

  lemma RowBooksAppend(first: seq<PendingRow>, rest: seq<PendingRow>)
    ensures RowBooks(first + rest) == RowBooks(first) + RowBooks(rest)
  {
  }

  lemma RowBooksCons(books: Dict<Book>, first: seq<PendingRow>, rest: seq<PendingRow>)
    requires |books| > 0
    requires RowBooks(first) == [] || RowBooks(first) == [books[0]]
    requires Subsequence(RowBooks(rest), books[1..])
    ensures Subsequence(RowBooks(first + rest), books)
  {
    RowBooksAppend(first, rest);
    if RowBooks(first) == [] {
      assert RowBooks(first + rest) == RowBooks(rest);
      SubsequenceSkip(RowBooks(rest), books);
    } else {
      SubsequenceCons(books[0], RowBooks(rest), books);
    }
  }

  /** A record for each lent book of `books`, in order. */
  function PendingRows(s: State, books: Dict<Book>): (r: Outcome<seq<PendingRow>>)
    ensures r.Ok? <==> AllPendingResolve(s, books)
    ensures r.Ok? ==> RowsSound(s, books, r.value) && RowsComplete(books, r.value)
    ensures r.Ok? ==> Subsequence(RowBooks(r.value), books)
    ensures r.KeyError? ==> exists i | FirstFailingBook(s, books, i) :: r.key == PendingInfo(s, books[i].1).key
    decreases |books|
  {
    if |books| == 0 then Ok([])
    else
      AllPendingResolveCons(s, books);
      match RowOf(s, books[0].0, books[0].1)
      case KeyError(k) => assert FirstFailingBook(s, books, 0); KeyError(k)
      case Ok(first) =>
        match PendingRows(s, books[1..])
        case KeyError(k) => FirstFailingBookShifts(s, books, k); KeyError(k)
        case Ok(rest) =>
          RowsSoundCons(s, books, first, rest);
          RowsCompleteCons(s, books, first, rest);
          RowBooksCons(books, first, rest);
          Ok(first + rest)
  }

  /** `view_pending`: a record for each lent book, in inventory order. */
  function ViewPending(s: State): (r: Outcome<seq<PendingRow>>)
    ensures r.Ok? <==> forall i | 0 <= i < |s.books| && s.books[i].1.status == Unavailable ::
      PendingInfo(s, s.books[i].1).Ok?
    ensures r.Ok? ==> forall j | 0 <= j < |r.value| ::
      && r.value[j].book.status == Unavailable
      && (r.value[j].bookId, r.value[j].book) in s.books
      && PendingInfo(s, r.value[j].book) == Ok(r.value[j].info)
    ensures r.Ok? ==> forall i | 0 <= i < |s.books| && s.books[i].1.status == Unavailable ::
      exists j | 0 <= j < |r.value| :: r.value[j].bookId == s.books[i].0 && r.value[j].book == s.books[i].1
    ensures r.Ok? ==> Subsequence(RowBooks(r.value), s.books)
    ensures r.KeyError? ==> exists i | FirstFailingBook(s, s.books, i) :: r.key == PendingInfo(s, s.books[i].1).key
  {
    PendingRows(s, s.books)
  }

  /** Borrower id `i` is the first of `ids` that is not a log key. */
  predicate FirstUnlogged(s: State, ids: seq<string>, i: int) {
    && 0 <= i < |ids|
    && ids[i] !in KeySet(s.logbook)
    && forall j | 0 <= j < i :: ids[j] in KeySet(s.logbook)
  }

  /** The names `view_book` prints for a List of Borrowers; the lookup loop
      stops at the first id that is not in the logbook. */
  function BorrowerNames(s: State, ids: seq<string>): (r: Outcome<seq<string>>)
    ensures r.Ok? <==> forall i | 0 <= i < |ids| :: ids[i] in KeySet(s.logbook)
    ensures r.Ok? ==> |r.value| == |ids|
    ensures r.Ok? ==> forall i | 0 <= i < |ids| ::
      Get(s.logbook, ids[i]).Some? && Get(s.logbook, ids[i]).value.person == r.value[i]
    ensures r.KeyError? ==> exists i | FirstUnlogged(s, ids, i) :: r.key == ids[i]
    decreases |ids|
  {
    if |ids| == 0 then Ok([])
    else match Get(s.logbook, ids[0])
      case None => assert FirstUnlogged(s, ids, 0); KeyError(ids[0])
      case Some(log) =>
        match BorrowerNames(s, ids[1..])
        case KeyError(k) => FirstUnloggedShifts(s, ids, k); KeyError(k)
        case Ok(rest) => Ok([log.person] + rest)
  }

  lemma FirstUnloggedShifts(s: State, ids: seq<string>, k: string)
    requires |ids| > 0 && ids[0] in KeySet(s.logbook)
    requires exists i | FirstUnlogged(s, ids[1..], i) :: k == ids[1..][i]
    ensures exists i | FirstUnlogged(s, ids, i) :: k == ids[i]
  {
    var i :| FirstUnlogged(s, ids[1..], i) && k == ids[1..][i];
    assert ids[i + 1] == ids[1..][i];
    forall j | 0 <= j < i + 1 ensures ids[j] in KeySet(s.logbook) {
      if j > 0 { assert ids[j] == ids[1..][j - 1]; }
    }
    assert FirstUnlogged(s, ids, i + 1);
  }

  datatype BookView = BookView(book: Book, borrowerNames: seq<string>)

  /** `view_book`: the first book with exactly this title and the names of
      its borrowers; `Ok(None)` is "Book not found." */
  function ViewBook(s: State, title: string): (r: Outcome<Option<BookView>>)
    ensures match FindFirst(s.books, TitleIs(title))
      case None => r == Ok(None)
      case Some(i) =>
        var book := s.books[i].1;
        && (r.Ok? <==> forall j | 0 <= j < |book.borrowers| :: book.borrowers[j] in KeySet(s.logbook))
        && (r.Ok? ==>
              && r.value.Some?
              && r.value.value.book == book
              && |r.value.value.borrowerNames| == |book.borrowers|
              && forall j | 0 <= j < |book.borrowers| ::
                   Get(s.logbook, book.borrowers[j]).Some? &&
                   Get(s.logbook, book.borrowers[j]).value.person == r.value.value.borrowerNames[j])
        && (r.KeyError? ==> exists j | FirstUnlogged(s, book.borrowers, j) :: r.key == book.borrowers[j])
  {
    match FindFirst(s.books, TitleIs(title))
    case None => Ok(None)
    case Some(i) =>
      var book := s.books[i].1;
      match BorrowerNames(s, book.borrowers)
      case KeyError(k) => KeyError(k)
      case Ok(names) => Ok(Some(BookView(book, names)))
  }

  /** Under the integrity rules no report stops on a missing key: the
      unguarded lookups of the program are safe. */
  lemma ValidViewsNeverFail(s: State, date: string, title: string)
    requires Valid(s)
    ensures ViewAllEntries(s).Ok?
    ensures ViewExpectedReturns(s, date).Ok?
    ensures ViewPending(s).Ok?
    ensures ViewBook(s, title).Ok?
  {
    forall i | 0 <= i < |s.borrowList| ensures Resolves(s, s.borrowList[i].1) {
      BorrowLogIdsAreKeys(s.logbook, s.borrowList[i].1.logId);
    }
    forall i | 0 <= i < |s.books| && s.books[i].1.status == Unavailable
      ensures PendingInfo(s, s.books[i].1).Ok?
    {
      var b := s.books[i].1;
      BorrowLogIdsAreKeys(s.logbook, b.borrowers[|b.borrowers| - 1]);
    }
    match FindFirst(s.books, TitleIs(title))
    case None =>
    case Some(i) =>
      forall j | 0 <= j < |s.books[i].1.borrowers| ensures s.books[i].1.borrowers[j] in KeySet(s.logbook) {
        BorrowLogIdsAreKeys(s.logbook, s.books[i].1.borrowers[j]);
      }
  }

  lemma BorrowLogIdsAreKeys(logbook: Dict<LogEntry>, id: string)
    requires id in BorrowLogIds(logbook)
    ensures id in KeySet(logbook)
  {
  }

  /** Under the integrity rules every lent book shows a last borrower
      record: "No borrower information available." is never printed. */
  lemma ValidPendingHasBorrower(s: State)
    requires Valid(s)
    ensures ViewPending(s).Ok?
    ensures forall j | 0 <= j < |ViewPending(s).value| :: ViewPending(s).value[j].info != NoBorrowerInfo
  {
    ValidViewsNeverFail(s, "", "");
    var rows := ViewPending(s).value;
    forall j | 0 <= j < |rows| ensures rows[j].info != NoBorrowerInfo {
      var m :| 0 <= m < |s.books| && s.books[m] == (rows[j].bookId, rows[j].book);
    }
  }

  /** A book whose last loan has exactly one borrow entry, under a
      non-empty key, and a log record shows that entry's due date and the
      logged borrower. */
  lemma SoleLoanShowsDue(s: State, book: Book, k: nat, person: string)
    requires |book.borrowers| > 0
    requires k < |s.borrowList| && s.borrowList[k].0 != ""
    requires s.borrowList[k].1.logId == book.borrowers[|book.borrowers| - 1]
    requires forall j | 0 <= j < |s.borrowList| && s.borrowList[j].1.logId == s.borrowList[k].1.logId :: j == k
    requires Get(s.logbook, s.borrowList[k].1.logId).Some?
    requires Get(s.logbook, s.borrowList[k].1.logId).value.person == person
    ensures PendingInfo(s, book) == Ok(Due(s.borrowList[k].1.dateReturn, person))
  {
    var last := book.borrowers[|book.borrowers| - 1];
    assert FirstLoan(s.borrowList, last, k);
  }

  /** After a successful borrow from a valid state, `view_pending` reports
      the lent book as due back on the given date, with the new borrower
      as its last borrower. */
  lemma BorrowShowsDue(s: State, person: string, date: string, time: string,
                       title: string, author: string, dateReturn: string)
    requires Valid(s)
    requires FindFirst(s.books, Borrowable(title, author)).Some?
    ensures var i := FindFirst(s.books, Borrowable(title, author)).value;
      var r := BorrowBook(s, person, date, time, title, author, dateReturn);
      PendingInfo(r, r.books[i].1) == Ok(Due(dateReturn, person))
  {
    var i := FindFirst(s.books, Borrowable(title, author)).value;
    var r := BorrowBook(s, person, date, time, title, author, dateReturn);
    var logId := LogId(|s.logbook| + 1);
    var borrowId := BorrowId(|s.borrowList| + 1);
    var loan := BorrowEntry(s.books[i].0, logId, dateReturn);
    NextLogIdFresh(s.logbook);
    var k := NewLoanIsSole(s, person, date, time, title, author, dateReturn);
    assert r.logbook == s.logbook + [(logId, LogEntry(person, date, time, Borrow))];
    NewLogRecord(s.logbook, logId, LogEntry(person, date, time, Borrow));
    SoleLoanShowsDue(r, r.books[i].1, k, person);
  }

  /** The loan a borrow writes is the only borrow entry carrying its log id. */
  lemma NewLoanIsSole(s: State, person: string, date: string, time: string,
                      title: string, author: string, dateReturn: string) returns (k: nat)
    requires Valid(s)
    requires FindFirst(s.books, Borrowable(title, author)).Some?
    ensures var i := FindFirst(s.books, Borrowable(title, author)).value;
      var r := BorrowBook(s, person, date, time, title, author, dateReturn);
      var logId := LogId(|s.logbook| + 1);
      && k < |r.borrowList|
      && r.borrowList[k] == (BorrowId(|s.borrowList| + 1), BorrowEntry(s.books[i].0, logId, dateReturn))
      && (forall j | 0 <= j < |r.borrowList| && r.borrowList[j].1.logId == logId :: j == k)
  {
    var i := FindFirst(s.books, Borrowable(title, author)).value;
    var r := BorrowBook(s, person, date, time, title, author, dateReturn);
    var logId := LogId(|s.logbook| + 1);
    var borrowId := BorrowId(|s.borrowList| + 1);
    var loan := BorrowEntry(s.books[i].0, logId, dateReturn);
    NextLogIdFresh(s.logbook);
    k := IndexOf(r.borrowList, borrowId).value;
    assert r.borrowList[k] == (borrowId, loan) by {
      assert Get(r.borrowList, borrowId) == Some(loan);
    }
    BorrowBookPreservesValid(s, person, date, time, title, author, dateReturn);
    forall j | 0 <= j < |r.borrowList| && r.borrowList[j].1.logId == logId
      ensures j == k
    {
      if r.borrowList[j] != (borrowId, loan) {
        assert r.borrowList[j] == s.borrowList[j];
        BorrowLogIdsAreKeys(s.logbook, s.borrowList[j].1.logId);
      }
      assert UniqueKeys(r.borrowList);
    }
  }

  /** A record appended under a fresh key is what a lookup of that key finds. */
  lemma NewLogRecord(logbook: Dict<LogEntry>, id: string, e: LogEntry)
    requires id !in KeySet(logbook)
    ensures Get(logbook + [(id, e)], id) == Some(e)
  {
    var d := logbook + [(id, e)];
    assert d[|logbook|] == (id, e);
    forall i | 0 <= i < |logbook| ensures d[i].0 != id {
      assert d[i] == logbook[i] && logbook[i].0 in KeySet(logbook);
    }
  }
}
