/** The circulation state of the library and the seven operations that
    change it. Each console handler of the program reads its answers with
    `input()`; here those answers are parameters, so every handler is a
    pure function from the old state to the new one. */
module Library {
  import opened Basics
  import opened Text
  import opened OrderedDict

  datatype Status = Available | Unavailable

  /** The `'Purpose'` field of a log entry. */
  datatype Purpose = Visit | Borrow | Return

  /** A `books` value. `borrowers` is the 'List of Borrowers': the log ids
      of the borrow events recorded against the book, oldest first. */
  datatype Book = Book(title: string, author: string, published: string, status: Status, borrowers: seq<string>)

  /** A `borrow_list` value: 'Book_ID', 'Log_ID' and 'Date Return'. */
  datatype BorrowEntry = BorrowEntry(bookId: string, logId: string, dateReturn: string)

  /** A `logbook` value: 'Person Name', 'Date', 'Time' and 'Purpose'. */
  datatype LogEntry = LogEntry(person: string, date: string, time: string, purpose: Purpose)

  /** The three dictionaries the program keeps in memory. */
  datatype State = State(books: Dict<Book>, borrowList: Dict<BorrowEntry>, logbook: Dict<LogEntry>)

  /** The state of a first run, when none of the three files exists. */
  const Empty: State := State([], [], [])

  /** Identifiers are a prefix and a 1-based count: `B<n>`, `BL<n>`, `L<n>`. */
  function BookId(n: nat): string { "B" + Decimal(n) }
  function BorrowId(n: nat): string { "BL" + Decimal(n) }
  function LogId(n: nat): string { "L" + Decimal(n) }

  /** Two counts give two different identifiers under the same prefix. */
  lemma PrefixedIdsDistinct(prefix: string, a: nat, b: nat)
    requires a != b
    ensures prefix + Decimal(a) != prefix + Decimal(b)
  {
    ParseDecimalInverts(a);
    ParseDecimalInverts(b);
    assert (prefix + Decimal(a))[|prefix|..] == Decimal(a);
    assert (prefix + Decimal(b))[|prefix|..] == Decimal(b);
  }

  /** The logbook's keys are exactly L1, ..., Ln in insertion order. */
  predicate LogKeysCanonical(logbook: Dict<LogEntry>) {
    forall i | 0 <= i < |logbook| :: logbook[i].0 == LogId(i + 1)
  }

  /** With canonical keys the next log id `"L" + (len + 1)` is new. */
  lemma NextLogIdFresh(logbook: Dict<LogEntry>)
    requires LogKeysCanonical(logbook)
    ensures LogId(|logbook| + 1) !in KeySet(logbook)
    ensures UniqueKeys(logbook)
  {
    forall i | 0 <= i < |logbook| ensures logbook[i].0 != LogId(|logbook| + 1) {
      PrefixedIdsDistinct("L", i + 1, |logbook| + 1);
    }
    forall i, j | 0 <= i < j < |logbook| ensures logbook[i].0 != logbook[j].0 {
      PrefixedIdsDistinct("L", i + 1, j + 1);
    }
  }

  // The matching rules of the handlers' searches.

  /** `edit_book` and `view_book`: the title, compared exactly. */
  function TitleIs(title: string): ((string, Book)) -> bool {
    (e: (string, Book)) => e.1.title == title
  }

  /** `delete_book`: title and author, both compared after `strip()`. */
  function Deletable(title: string, author: string): ((string, Book)) -> bool {
    (e: (string, Book)) => Strip(e.1.title) == Strip(title) && Strip(e.1.author) == Strip(author)
  }

  /** `borrow_book`: exact title and author of an available copy. */
  function Borrowable(title: string, author: string): ((string, Book)) -> bool {
    (e: (string, Book)) => e.1.title == title && e.1.author == author && e.1.status == Available
  }

  /** `return_book`: exact title and author of a lent copy. */
  function Returnable(title: string, author: string): ((string, Book)) -> bool {
    (e: (string, Book)) => e.1.title == title && e.1.author == author && e.1.status == Unavailable
  }

  /** `add_book`: stores an available book with no borrowers under
      `"B" + (len(books) + 1)`. After a deletion that key can already be
      taken; the new book then replaces the old one at its position. */
  function AddBook(s: State, title: string, author: string, published: string): (r: State)
    ensures var id := BookId(|s.books| + 1);
      var book := Book(title, author, published, Available, []);
      && KeySet(r.books) == KeySet(s.books) + {id}
      && (id !in KeySet(s.books) ==> r.books == s.books + [(id, book)])
      && (id in KeySet(s.books) ==> |r.books| == |s.books|)
      && (forall i | 0 <= i < |s.books| && s.books[i].0 != id :: r.books[i] == s.books[i])
      && (UniqueKeys(s.books) ==> Get(r.books, id) == Some(book))
    ensures r.borrowList == s.borrowList && r.logbook == s.logbook
  {
    var id := BookId(|s.books| + 1);
    s.(books := Put(s.books, id, Book(title, author, published, Available, [])))
  }

  /** Removes the book stored under `id` together with every borrow entry
      whose 'Book_ID' is `id` (the cascade of `delete_book`). */
  function CascadeDelete(s: State, id: string): (r: State)
    ensures r.logbook == s.logbook
    ensures KeySet(r.books) == KeySet(s.books) - {id}
    ensures forall j | 0 <= j < |r.books| :: r.books[j] in s.books && r.books[j].0 != id
    ensures forall j | 0 <= j < |s.books| && s.books[j].0 != id :: s.books[j] in r.books
    ensures forall j | 0 <= j < |r.borrowList| :: r.borrowList[j] in s.borrowList && r.borrowList[j].1.bookId != id
    ensures forall j | 0 <= j < |s.borrowList| && s.borrowList[j].1.bookId != id :: s.borrowList[j] in r.borrowList
    ensures UniqueKeys(s.books) ==> UniqueKeys(r.books)
    ensures UniqueKeys(s.borrowList) ==> UniqueKeys(r.borrowList)
    ensures Subsequence(r.books, s.books) && Subsequence(r.borrowList, s.borrowList)
  {
    State(Remove(s.books, id),
          Filter(s.borrowList, (e: (string, BorrowEntry)) => e.1.bookId != id),
          s.logbook)
  }

  /** `delete_book`: removes the first book whose stripped title and author
      equal the stripped inputs, and every borrow entry naming it. A found
      key that is empty counts as not found (`if book_id:`). */
  function DeleteBook(s: State, title: string, author: string): (r: State)
    ensures r.logbook == s.logbook
    ensures match FindFirst(s.books, Deletable(title, author))
      case None => r == s
      case Some(i) =>
        var id := s.books[i].0;
        && (id == "" ==> r == s)
        && (id != "" ==>
              && KeySet(r.books) == KeySet(s.books) - {id}
              && Subsequence(r.books, s.books)
              && Subsequence(r.borrowList, s.borrowList)
              && (forall j | 0 <= j < |s.books| && s.books[j].0 != id :: s.books[j] in r.books)
              && (forall j | 0 <= j < |r.borrowList| :: r.borrowList[j] in s.borrowList && r.borrowList[j].1.bookId != id)
              && (forall j | 0 <= j < |s.borrowList| && s.borrowList[j].1.bookId != id :: s.borrowList[j] in r.borrowList))
  {
    match FindFirst(s.books, Deletable(title, author))
    case None => s
    case Some(i) =>
      var id := s.books[i].0;
      if id == "" then s else CascadeDelete(s, id)
  }

  /** `delete_all_books`: empties `books` and `borrow_list` when the answer
      lowercases to "yes"; the logbook is kept either way. */
  function DeleteAllBooks(s: State, confirm: string): (r: State)
    ensures r.logbook == s.logbook
    ensures |confirm| == 3 && confirm[0] in "yY" && confirm[1] in "eE" && confirm[2] in "sS" ==>
      r.books == [] && r.borrowList == []
    ensures !(|confirm| == 3 && confirm[0] in "yY" && confirm[1] in "eE" && confirm[2] in "sS") ==>
      r == s
  {
    LowerIsYes(confirm);
    if ToLower(confirm) == "yes" then State([], [], s.logbook) else s
  }

  /** `edit_book`: the first book with exactly this title gets the new
      title, author and publication date, and keeps its key, position,
      status and borrowers. */
  function EditBook(s: State, title: string, newTitle: string, newAuthor: string, newPublished: string): (r: State)
    ensures r.borrowList == s.borrowList && r.logbook == s.logbook
    ensures match FindFirst(s.books, TitleIs(title))
      case None => r == s
      case Some(i) =>
        && |r.books| == |s.books|
        && r.books[i].0 == s.books[i].0
        && r.books[i].1.title == newTitle
        && r.books[i].1.author == newAuthor
        && r.books[i].1.published == newPublished
        && r.books[i].1.status == s.books[i].1.status
        && r.books[i].1.borrowers == s.books[i].1.borrowers
        && (forall j | 0 <= j < |s.books| && j != i :: r.books[j] == s.books[j])
  {
    match FindFirst(s.books, TitleIs(title))
    case None => s
    case Some(i) =>
      var (id, book) := s.books[i];
      s.(books := s.books[i := (id, Book(newTitle, newAuthor, newPublished, book.status, book.borrowers))])
  }

  /** Writes a log record under `"L" + (len(logbook) + 1)`. While the keys
      are L1..Ln that key is new, so the record is appended. */
  function AppendLog(logbook: Dict<LogEntry>, entry: LogEntry): (r: Dict<LogEntry>)
    ensures KeySet(r) == KeySet(logbook) + {LogId(|logbook| + 1)}
    ensures LogKeysCanonical(logbook) ==>
      && r == logbook + [(LogId(|logbook| + 1), entry)]
      && LogKeysCanonical(r)
  {
    if LogKeysCanonical(logbook) then NextLogIdFresh(logbook); Put(logbook, LogId(|logbook| + 1), entry)
    else Put(logbook, LogId(|logbook| + 1), entry)
  }

  /** `visit_library`: logs a visit and changes nothing else. */
  function RecordVisit(s: State, person: string, date: string, time: string): (r: State)
    ensures r.books == s.books && r.borrowList == s.borrowList
    ensures LogKeysCanonical(s.logbook) ==>
      r.logbook == s.logbook + [(LogId(|s.logbook| + 1), LogEntry(person, date, time, Visit))]
  {
    s.(logbook := AppendLog(s.logbook, LogEntry(person, date, time, Visit)))
  }

  /** Lends the book at position `i` under log id `logId`: it becomes
      unavailable, `logId` becomes its latest borrower, and the borrow
      entry `borrowId` records the loan. */
  function LendBook(s: State, i: nat, borrowId: string, logId: string, dateReturn: string): (r: State)
    requires i < |s.books|
    ensures r.logbook == s.logbook
    ensures |r.books| == |s.books| && forall j | 0 <= j < |s.books| :: r.books[j].0 == s.books[j].0
    ensures r.books[i].1.status == Unavailable
    ensures r.books[i].1.borrowers == s.books[i].1.borrowers + [logId]
    ensures r.books[i].1.title == s.books[i].1.title && r.books[i].1.author == s.books[i].1.author
    ensures r.books[i].1.published == s.books[i].1.published
    ensures forall j | 0 <= j < |s.books| && j != i :: r.books[j] == s.books[j]
    ensures var loan := BorrowEntry(s.books[i].0, logId, dateReturn);
      && KeySet(r.borrowList) == KeySet(s.borrowList) + {borrowId}
      && |s.borrowList| <= |r.borrowList|
      && (borrowId !in KeySet(s.borrowList) ==> r.borrowList == s.borrowList + [(borrowId, loan)])
      && (forall j | 0 <= j < |s.borrowList| && s.borrowList[j].0 != borrowId :: r.borrowList[j] == s.borrowList[j])
      && (forall j | 0 <= j < |r.borrowList| :: r.borrowList[j] == (borrowId, loan) || (j < |s.borrowList| && r.borrowList[j] == s.borrowList[j]))
      && (UniqueKeys(s.borrowList) ==> UniqueKeys(r.borrowList) && Get(r.borrowList, borrowId) == Some(loan))
  {
    var (id, book) := s.books[i];
    var borrowList := Put(s.borrowList, borrowId, BorrowEntry(id, logId, dateReturn));
    var lent := book.(status := Unavailable, borrowers := book.borrowers + [logId]);
    State(s.books[i := (id, lent)], borrowList, s.logbook)
  }

  /** `borrow_book`: always logs a borrow event. When an available copy
      with this exact title and author exists, the first one is lent under
      the new log id; otherwise books and borrow entries stay as they are. */
  function BorrowBook(s: State, person: string, date: string, time: string,
                      title: string, author: string, dateReturn: string): (r: State)
    ensures LogKeysCanonical(s.logbook) ==>
      r.logbook == s.logbook + [(LogId(|s.logbook| + 1), LogEntry(person, date, time, Borrow))]
    ensures r.logbook == AppendLog(s.logbook, LogEntry(person, date, time, Borrow))
    ensures match FindFirst(s.books, Borrowable(title, author))
      case None => r.books == s.books && r.borrowList == s.borrowList
      case Some(i) =>
        && |r.books| == |s.books|
        && r.books[i].0 == s.books[i].0
        && r.books[i].1.status == Unavailable
        && r.books[i].1.borrowers == s.books[i].1.borrowers + [LogId(|s.logbook| + 1)]
        && r.books[i].1.title == s.books[i].1.title
        && r.books[i].1.author == s.books[i].1.author
        && r.books[i].1.published == s.books[i].1.published
        && (forall j | 0 <= j < |s.books| && j != i :: r.books[j] == s.books[j])
        && var borrowId := BorrowId(|s.borrowList| + 1);
           var loan := BorrowEntry(s.books[i].0, LogId(|s.logbook| + 1), dateReturn);
           && KeySet(r.borrowList) == KeySet(s.borrowList) + {borrowId}
           && |s.borrowList| <= |r.borrowList|
           && (borrowId !in KeySet(s.borrowList) ==> r.borrowList == s.borrowList + [(borrowId, loan)])
           && (forall j | 0 <= j < |s.borrowList| && s.borrowList[j].0 != borrowId :: r.borrowList[j] == s.borrowList[j])
           && (forall j | 0 <= j < |r.borrowList| ::
                 r.borrowList[j] == (borrowId, loan) || (j < |s.borrowList| && r.borrowList[j] == s.borrowList[j]))
           && (UniqueKeys(s.borrowList) ==> UniqueKeys(r.borrowList) && Get(r.borrowList, borrowId) == Some(loan))
  {
    var logId := LogId(|s.logbook| + 1);
    var logged := s.(logbook := AppendLog(s.logbook, LogEntry(person, date, time, Borrow)));
    match FindFirst(s.books, Borrowable(title, author))
    case None => logged
    case Some(i) => LendBook(logged, i, BorrowId(|s.borrowList| + 1), logId, dateReturn)
  }

  /** `return_book`: always logs a return event. The first lent copy with
      this exact title and author becomes available again; its borrowers
      and every borrow entry stay as they were. */
  function ReturnBook(s: State, person: string, date: string, time: string,
                      title: string, author: string): (r: State)
    ensures LogKeysCanonical(s.logbook) ==>
      r.logbook == s.logbook + [(LogId(|s.logbook| + 1), LogEntry(person, date, time, Return))]
    ensures r.borrowList == s.borrowList
    ensures |r.books| == |s.books|
    ensures match FindFirst(s.books, Returnable(title, author))
      case None => r.books == s.books
      case Some(i) =>
        && r.books[i] == (s.books[i].0, s.books[i].1.(status := Available))
        && (forall j | 0 <= j < |s.books| && j != i :: r.books[j] == s.books[j])
  {
    var logbook := AppendLog(s.logbook, LogEntry(person, date, time, Return));
    match FindFirst(s.books, Returnable(title, author))
    case None => s.(logbook := logbook)
    case Some(i) =>
      var (id, book) := s.books[i];
      State(s.books[i := (id, book.(status := Available))], s.borrowList, logbook)
  }
}
