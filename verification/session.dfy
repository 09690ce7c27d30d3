/** A session of the menu loop: the state-changing menu choices as
    commands, run one after another over the in-memory state. */
module Session {
  import opened Basics
  import opened Text
  import opened OrderedDict
  import opened Library
  import opened Integrity

  /** Menu choices 1, 2, 3, 4, 8, 9 and 12 with the answers typed at their
      prompts. */
  datatype Command =
    | Add(title: string, author: string, published: string)
    | Delete(title: string, author: string)
    | DeleteAll(confirm: string)
    | Edit(title: string, newTitle: string, newAuthor: string, newPublished: string)
    | Borrow(person: string, date: string, time: string, title: string, author: string, dateReturn: string)
    | Return(person: string, date: string, time: string, title: string, author: string)
    | Visit(person: string, date: string, time: string)

  function Step(s: State, c: Command): State {
    match c
    case Add(t, a, p) => AddBook(s, t, a, p)
    case Delete(t, a) => DeleteBook(s, t, a)
    case DeleteAll(answer) => DeleteAllBooks(s, answer)
    case Edit(t, nt, na, np) => EditBook(s, t, nt, na, np)
    case Borrow(who, d, tm, t, a, due) => BorrowBook(s, who, d, tm, t, a, due)
    case Return(who, d, tm, t, a) => ReturnBook(s, who, d, tm, t, a)
    case Visit(who, d, tm) => RecordVisit(s, who, d, tm)
  }

  function Run(s: State, cmds: seq<Command>): State
    decreases |cmds|
  {
    if |cmds| == 0 then s else Run(Step(s, cmds[0]), cmds[1..])
  }

  /** The log record a command writes, if it writes one. */
  function LogRecord(c: Command): Option<LogEntry> {
    match c
    case Borrow(who, d, tm, _, _, _) => Some(LogEntry(who, d, tm, Purpose.Borrow))
    case Return(who, d, tm, _, _) => Some(LogEntry(who, d, tm, Purpose.Return))
    case Visit(who, d, tm) => Some(LogEntry(who, d, tm, Purpose.Visit))
    case _ => None
  }

  /** The log records of a command sequence, in order. */
  function LogRecords(cmds: seq<Command>): seq<LogEntry>
    decreases |cmds|
  {
    if |cmds| == 0 then []
    else HeadRecords(cmds[0]) + LogRecords(cmds[1..])
  }

  lemma StepPreservesValid(s: State, c: Command)
    requires Valid(s)
    ensures Valid(Step(s, c))
  {
    match c
    case Add(t, a, p) =>
      assert Step(s, c) == AddBook(s, t, a, p);
      AddBookPreservesValid(s, t, a, p);
    case Delete(t, a) =>
      assert Step(s, c) == DeleteBook(s, t, a);
      DeleteBookPreservesValid(s, t, a);
    case DeleteAll(answer) =>
      assert Step(s, c) == DeleteAllBooks(s, answer);
      DeleteAllBooksPreservesValid(s, answer);
    case Edit(t, nt, na, np) =>
      assert Step(s, c) == EditBook(s, t, nt, na, np);
      EditBookPreservesValid(s, t, nt, na, np);
    case Borrow(who, d, tm, t, a, due) =>
      assert Step(s, c) == BorrowBook(s, who, d, tm, t, a, due);
      BorrowBookPreservesValid(s, who, d, tm, t, a, due);
    case Return(who, d, tm, t, a) =>
      assert Step(s, c) == ReturnBook(s, who, d, tm, t, a);
      ReturnBookPreservesValid(s, who, d, tm, t, a);
    case Visit(who, d, tm) =>
      assert Step(s, c) == RecordVisit(s, who, d, tm);
      RecordVisitPreservesValid(s, who, d, tm);
  }

  /** Every session that starts from a valid state ends in one. */
  lemma {:induction false} RunPreservesValid(s: State, cmds: seq<Command>)
    requires Valid(s)
    ensures Valid(Run(s, cmds))
    decreases |cmds|
  {
    if |cmds| > 0 {
      StepPreservesValid(s, cmds[0]);
      RunPreservesValid(Step(s, cmds[0]), cmds[1..]);
    }
  }

  /** One command extends the logbook by exactly its own record, under the
      next key, and never touches the records already there. */
  lemma StepAppendsLog(s: State, c: Command)
    requires LogKeysCanonical(s.logbook)
    ensures Step(s, c).logbook == s.logbook + Keyed(|s.logbook|, HeadRecords(c))
  {
    var n := |s.logbook|;
    match LogRecord(c)
    case None =>
      assert Keyed(n, HeadRecords(c)) == [];
      assert Step(s, c).logbook == s.logbook by {
        match c
        case Add(t, a, p) =>
        case Delete(t, a) =>
        case DeleteAll(answer) =>
        case Edit(t, nt, na, np) =>
      }
    case Some(e) =>
      assert Keyed(n, HeadRecords(c)) == [(LogId(n + 1), e)];
      match c
      case Borrow(who, d, tm, t, a, due) =>
        assert Step(s, c) == BorrowBook(s, who, d, tm, t, a, due);
      case Return(who, d, tm, t, a) =>
        assert Step(s, c) == ReturnBook(s, who, d, tm, t, a);
      case Visit(who, d, tm) =>
        assert Step(s, c) == RecordVisit(s, who, d, tm);
  }

  function HeadRecords(c: Command): seq<LogEntry> {
    match LogRecord(c) case Some(e) => [e] case None => []
  }

  /** Log records keyed L(n+1), L(n+2), ... in order. */
  function Keyed(n: nat, records: seq<LogEntry>): Dict<LogEntry> {
    seq(|records|, i requires 0 <= i < |records| => (LogId(n + i + 1), records[i]))
  }

  /** Keying two runs of records one after the other keys their
      concatenation. Kept apart so that the step in `KeyedTwice` stays
      cheap. */
  lemma KeyedAppend(n: nat, a: seq<LogEntry>, b: seq<LogEntry>)
    ensures Keyed(n, a) + Keyed(n + |a|, b) == Keyed(n, a + b)
  {
  }

  /** Appending records under the keys that follow keeps the keys L1..Ln. */
  lemma KeyedCanonical(logbook: Dict<LogEntry>, records: seq<LogEntry>)
    requires LogKeysCanonical(logbook)
    ensures LogKeysCanonical(logbook + Keyed(|logbook|, records))
  {
  }

  /** The logbook is append-only: after any session it is the old logbook
      followed by the commands' own records, in order, keyed L(n+1),
      L(n+2), ... */
  lemma {:induction false} RunAppendsLog(s: State, cmds: seq<Command>)
    requires LogKeysCanonical(s.logbook)
    ensures Run(s, cmds).logbook == s.logbook + Keyed(|s.logbook|, LogRecords(cmds))
    decreases |cmds|
  {
    if |cmds| == 0 {
      assert Keyed(|s.logbook|, []) == [];
    } else {
      var n := |s.logbook|;
      var s1 := Step(s, cmds[0]);
      var head := HeadRecords(cmds[0]);
      var tail := LogRecords(cmds[1..]);
      StepAppendsLog(s, cmds[0]);
      KeyedCanonical(s.logbook, head);
      RunAppendsLog(s1, cmds[1..]);
      assert LogRecords(cmds) == head + tail;
      KeyedTwice(s.logbook, head, tail);
    }
  }

  /** Keying `head` after the logbook and then `tail` after that is keying
      `head + tail` after the logbook. */
  lemma KeyedTwice(logbook: Dict<LogEntry>, head: seq<LogEntry>, tail: seq<LogEntry>)
    ensures var n := |logbook|;
      logbook + Keyed(n, head) + Keyed(n + |head|, tail) == logbook + Keyed(n, head + tail)
  {
    var n := |logbook|;
    KeyedAppend(n, head, tail);
    assert logbook + Keyed(n, head) + Keyed(n + |head|, tail)
        == logbook + (Keyed(n, head) + Keyed(n + |head|, tail));
  }

  /** A book lent by `borrow_book` and then given back by `return_book` with
      the same title and author is available again and keeps the loan in
      its List of Borrowers, provided no earlier book has that title and
      author (otherwise the return would find that one first). */
  lemma BorrowThenReturn(s: State, person: string, date: string, time: string,
                         title: string, author: string, dateReturn: string,
                         person2: string, date2: string, time2: string)
    requires FindFirst(s.books, Borrowable(title, author)).Some?
    requires forall j | 0 <= j < FindFirst(s.books, Borrowable(title, author)).value ::
      !(s.books[j].1.title == title && s.books[j].1.author == author)
    ensures var i := FindFirst(s.books, Borrowable(title, author)).value;
      var lent := BorrowBook(s, person, date, time, title, author, dateReturn);
      var back := ReturnBook(lent, person2, date2, time2, title, author);
      && lent.books[i].1.status == Unavailable
      && back.books[i].1.status == Available
      && back.books[i].1.borrowers == s.books[i].1.borrowers + [LogId(|s.logbook| + 1)]
      && back.borrowList == lent.borrowList
  {
    var i := FindFirst(s.books, Borrowable(title, author)).value;
    var lent := BorrowBook(s, person, date, time, title, author, dateReturn);
    assert Returnable(title, author)(lent.books[i]);
    forall j | 0 <= j < i ensures !Returnable(title, author)(lent.books[j]) {
      assert lent.books[j] == s.books[j];
    }
  }

  /** Identifiers come from the current size of a collection, so they are
      reused: with two books added to an empty inventory and the first one
      deleted, the next book gets key B2 again and replaces the second. */
  lemma AddAfterDeleteReplaces(s: State, t1: string, a1: string, p1: string,
                               t2: string, a2: string, p2: string,
                               t3: string, a3: string, p3: string)
    requires s.books == []
    ensures var s2 := AddBook(AddBook(s, t1, a1, p1), t2, a2, p2);
      var s4 := AddBook(DeleteBook(s2, t1, a1), t3, a3, p3);
      && s2.books == [("B1", Book(t1, a1, p1, Available, [])), ("B2", Book(t2, a2, p2, Available, []))]
      && s4.books == [("B2", Book(t3, a3, p3, Available, []))]
  {
    var s2 := AddBook(AddBook(s, t1, a1, p1), t2, a2, p2);
    TwoBooks(s, t1, a1, p1, t2, a2, p2);
    assert Deletable(t1, a1)(s2.books[0]);
    assert DeleteBook(s2, t1, a1).books == Remove(s2.books, "B1");
    RemoveFirstOfTwo(s2.books);
    AddOverB2(DeleteBook(s2, t1, a1), t3, a3, p3);
  }

  lemma TwoBooks(s: State, t1: string, a1: string, p1: string, t2: string, a2: string, p2: string)
    requires s.books == []
    ensures AddBook(AddBook(s, t1, a1, p1), t2, a2, p2).books ==
      [("B1", Book(t1, a1, p1, Available, [])), ("B2", Book(t2, a2, p2, Available, []))]
  {
    assert BookId(1) == "B1" by { assert Decimal(1) == "1"; }
    assert BookId(2) == "B2" by { assert Decimal(2) == "2"; }
    assert KeySet(s.books) == {};
    var s1 := AddBook(s, t1, a1, p1);
    assert "B2" !in KeySet(s1.books);
  }

  lemma RemoveFirstOfTwo(d: Dict<Book>)
    requires |d| == 2 && d[0].0 == "B1" && d[1].0 == "B2"
    ensures Remove(d, "B1") == [d[1]]
  {
    var r := Remove(d, "B1");
    assert d[1] in r;
    forall i | 0 <= i < |r| ensures r[i] == d[1] {
      assert r[i] in d;
    }
    assert UniqueKeys(d);
    assert |r| <= 1;
  }

  lemma AddOverB2(s: State, t: string, a: string, p: string)
    requires |s.books| == 1 && s.books[0].0 == "B2"
    ensures AddBook(s, t, a, p).books == [("B2", Book(t, a, p, Available, []))]
  {
    assert BookId(2) == "B2" by { assert Decimal(2) == "2"; }
    assert "B2" in KeySet(s.books);
  }
}
