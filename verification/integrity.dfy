/** The cross-collection rules the circulation state keeps, and the proof
    that every operation keeps them. The view functions of the program
    look up `books[...]` and `logbook[...]` without a guard; these rules
    are what makes those lookups safe. */
module Integrity {
  import opened OrderedDict
  import opened Library

  /** Keys of the log entries that record a borrow event. */
  function BorrowLogIds(logbook: Dict<LogEntry>): set<string> {
    set i | 0 <= i < |logbook| && logbook[i].1.purpose == Borrow :: logbook[i].0
  }

  /** No key is the empty string, so a found key is always truthy. */
  predicate NoEmptyKey<V>(d: Dict<V>) {
    forall i | 0 <= i < |d| :: d[i].0 != ""
  }

  /** Referential integrity: every borrow entry names an existing book and
      a logged borrow event, and every id in a List of Borrowers is a
      logged borrow event. */
  predicate LinksResolve(s: State) {
    && (forall i | 0 <= i < |s.borrowList| :: s.borrowList[i].1.bookId in KeySet(s.books))
    && (forall i | 0 <= i < |s.borrowList| :: s.borrowList[i].1.logId in BorrowLogIds(s.logbook))
    && (forall i, j | 0 <= i < |s.books| && 0 <= j < |s.books[i].1.borrowers| ::
          s.books[i].1.borrowers[j] in BorrowLogIds(s.logbook))
  }

  /** A lent book has at least one borrower on record. */
  predicate LentHaveBorrower(s: State) {
    forall i | 0 <= i < |s.books| :: s.books[i].1.status == Unavailable ==> |s.books[i].1.borrowers| > 0
  }

  predicate Valid(s: State) {
    && UniqueKeys(s.books) && UniqueKeys(s.borrowList)
    && NoEmptyKey(s.books) && NoEmptyKey(s.borrowList)
    && LogKeysCanonical(s.logbook)
    && LinksResolve(s)
    && LentHaveBorrower(s)
  }

  lemma EmptyValid()
    ensures Valid(Empty)
  {
  }

  /** Appending a record keeps every borrow event and adds the new one
      when it is a borrow. */
  lemma BorrowLogIdsAppend(logbook: Dict<LogEntry>, e: (string, LogEntry))
    ensures BorrowLogIds(logbook + [e]) ==
      BorrowLogIds(logbook) + (if e.1.purpose == Borrow then {e.0} else {})
  {
    var r := logbook + [e];
    forall x | x in BorrowLogIds(logbook) ensures x in BorrowLogIds(r) {
      var i :| 0 <= i < |logbook| && logbook[i].1.purpose == Borrow && logbook[i].0 == x;
      assert r[i] == logbook[i];
    }
    forall x | x in BorrowLogIds(r) ensures x in BorrowLogIds(logbook) + (if e.1.purpose == Borrow then {e.0} else {}) {
      var i :| 0 <= i < |r| && r[i].1.purpose == Borrow && r[i].0 == x;
      if i < |logbook| { assert r[i] == logbook[i]; }
    }
    if e.1.purpose == Borrow {
      assert r[|logbook|] == e;
    }
  }

  /** Every logging operation keeps the rules as long as books and borrow
      entries only change in ways that keep them on their own. */
  lemma AppendLogKeepsBorrowLogIds(logbook: Dict<LogEntry>, entry: LogEntry)
    requires LogKeysCanonical(logbook)
    ensures BorrowLogIds(logbook) <= BorrowLogIds(AppendLog(logbook, entry))
    ensures entry.purpose == Borrow ==> LogId(|logbook| + 1) in BorrowLogIds(AppendLog(logbook, entry))
  {
    BorrowLogIdsAppend(logbook, (LogId(|logbook| + 1), entry));
  }

  lemma AddBookPreservesValid(s: State, title: string, author: string, published: string)
    requires Valid(s)
    ensures Valid(AddBook(s, title, author, published))
  {
    var r := AddBook(s, title, author, published);
    assert BookId(|s.books| + 1) != "";
    forall i | 0 <= i < |r.books| && r.books[i].1.status == Unavailable
      ensures |r.books[i].1.borrowers| > 0
    {
      assert i < |s.books| && r.books[i] == s.books[i];
    }
    forall i, j | 0 <= i < |r.books| && 0 <= j < |r.books[i].1.borrowers|
      ensures r.books[i].1.borrowers[j] in BorrowLogIds(r.logbook)
    {
      assert i < |s.books| && r.books[i] == s.books[i];
    }
  }

  /** A state whose books and borrow entries are drawn from a valid state,
      with the same logbook, is valid once its own keys are unique and its
      borrow entries name its own books. */
  lemma SubStateValid(s: State, r: State)
    requires Valid(s)
    requires r.logbook == s.logbook
    requires UniqueKeys(r.books) && UniqueKeys(r.borrowList)
    requires forall i | 0 <= i < |r.books| :: r.books[i] in s.books
    requires forall i | 0 <= i < |r.borrowList| :: r.borrowList[i] in s.borrowList
    requires forall i | 0 <= i < |r.borrowList| :: r.borrowList[i].1.bookId in KeySet(r.books)
    ensures Valid(r)
  {
    forall i | 0 <= i < |r.books|
      ensures r.books[i].0 != ""
      ensures r.books[i].1.status == Unavailable ==> |r.books[i].1.borrowers| > 0
      ensures forall j | 0 <= j < |r.books[i].1.borrowers| :: r.books[i].1.borrowers[j] in BorrowLogIds(r.logbook)
    {
      var m :| 0 <= m < |s.books| && s.books[m] == r.books[i];
    }
    forall i | 0 <= i < |r.borrowList|
      ensures r.borrowList[i].0 != ""
      ensures r.borrowList[i].1.logId in BorrowLogIds(r.logbook)
    {
      var m :| 0 <= m < |s.borrowList| && s.borrowList[m] == r.borrowList[i];
    }
  }

  lemma CascadeDeletePreservesValid(s: State, id: string)
    requires Valid(s)
    ensures Valid(CascadeDelete(s, id))
  {
    var r := CascadeDelete(s, id);
    forall i | 0 <= i < |r.borrowList| ensures r.borrowList[i].1.bookId in KeySet(r.books) {
      var m :| 0 <= m < |s.borrowList| && s.borrowList[m] == r.borrowList[i];
    }
    SubStateValid(s, r);
  }

  lemma DeleteBookPreservesValid(s: State, title: string, author: string)
    requires Valid(s)
    ensures Valid(DeleteBook(s, title, author))
  {
    var found := FindFirst(s.books, Deletable(title, author));
    if found.Some? {
      CascadeDeletePreservesValid(s, s.books[found.value].0);
    }
  }

  lemma DeleteAllBooksPreservesValid(s: State, confirm: string)
    requires Valid(s)
    ensures Valid(DeleteAllBooks(s, confirm))
  {
  }

  lemma EditBookPreservesValid(s: State, title: string, newTitle: string, newAuthor: string, newPublished: string)
    requires Valid(s)
    ensures Valid(EditBook(s, title, newTitle, newAuthor, newPublished))
  {
    var r := EditBook(s, title, newTitle, newAuthor, newPublished);
    KeySetSameKeys(s.books, r.books);
  }

  lemma RecordVisitPreservesValid(s: State, person: string, date: string, time: string)
    requires Valid(s)
    ensures Valid(RecordVisit(s, person, date, time))
  {
    AppendLogKeepsBorrowLogIds(s.logbook, LogEntry(person, date, time, Visit));
  }

  /** Lending keeps the rules when the lending log id is a logged borrow
      event and the borrow entry's key is not empty. */
  lemma LendBookPreservesValid(s: State, i: nat, borrowId: string, logId: string, dateReturn: string)
    requires Valid(s) && i < |s.books|
    requires borrowId != ""
    requires logId in BorrowLogIds(s.logbook)
    ensures Valid(LendBook(s, i, borrowId, logId, dateReturn))
  {
    var r := LendBook(s, i, borrowId, logId, dateReturn);
    KeySetSameKeys(s.books, r.books);
    forall j | 0 <= j < |r.books| ensures r.books[j].0 != "" {
      assert r.books[j].0 == s.books[j].0;
    }
    forall j | 0 <= j < |r.borrowList|
      ensures r.borrowList[j].0 != ""
      ensures r.borrowList[j].1.bookId in KeySet(r.books)
      ensures r.borrowList[j].1.logId in BorrowLogIds(r.logbook)
    {
      if r.borrowList[j] != (borrowId, BorrowEntry(s.books[i].0, logId, dateReturn)) {
        assert r.borrowList[j] == s.borrowList[j];
      }
    }
    forall j, k | 0 <= j < |r.books| && 0 <= k < |r.books[j].1.borrowers|
      ensures r.books[j].1.borrowers[k] in BorrowLogIds(r.logbook)
    {
      if j != i || k < |s.books[i].1.borrowers| {
        assert r.books[j].1.borrowers[k] == s.books[j].1.borrowers[k];
      }
    }
    forall j | 0 <= j < |r.books| && r.books[j].1.status == Unavailable
      ensures |r.books[j].1.borrowers| > 0
    {
      if j != i { assert r.books[j] == s.books[j]; }
    }
  }

  lemma BorrowBookPreservesValid(s: State, person: string, date: string, time: string,
                                 title: string, author: string, dateReturn: string)
    requires Valid(s)
    ensures Valid(BorrowBook(s, person, date, time, title, author, dateReturn))
  {
    var entry := LogEntry(person, date, time, Borrow);
    AppendLogKeepsBorrowLogIds(s.logbook, entry);
    var logged := s.(logbook := AppendLog(s.logbook, entry));
    assert Valid(logged);
    match FindFirst(s.books, Borrowable(title, author))
    case None =>
    case Some(i) =>
      assert BorrowId(|s.borrowList| + 1)[0] == 'B';
      LendBookPreservesValid(logged, i, BorrowId(|s.borrowList| + 1), LogId(|s.logbook| + 1), dateReturn);
  }

  lemma ReturnBookPreservesValid(s: State, person: string, date: string, time: string,
                                 title: string, author: string)
    requires Valid(s)
    ensures Valid(ReturnBook(s, person, date, time, title, author))
  {
    var r := ReturnBook(s, person, date, time, title, author);
    AppendLogKeepsBorrowLogIds(s.logbook, LogEntry(person, date, time, Return));
    assert r.logbook == AppendLog(s.logbook, LogEntry(person, date, time, Return));
    KeySetSameKeys(s.books, r.books);
    forall i, j | 0 <= i < |r.books| && 0 <= j < |r.books[i].1.borrowers|
      ensures r.books[i].1.borrowers[j] in BorrowLogIds(r.logbook)
    {
      assert r.books[i].1.borrowers == s.books[i].1.borrowers;
    }
  }
}
