# Library inventory and logging system — circulation core in Dafny

The Python program `library_system.py` keeps three dictionaries in memory:

- `books`: a book id `B<n>` maps to a title, author, publication date, status and *List of Borrowers*.
- `borrow_list`: a borrow id `BL<n>` maps to a book id, log id and return date.
- `logbook`: a log id `L<n>` maps to a person, date, time and purpose.

A console menu drives operations on these dictionaries, and the program saves each dictionary encrypted to a file.

This project models the in-memory half of that program as pure functions on an immutable `State`. It covers:

- the mutating operations: add, delete with its cascade, delete-all, edit, borrow, return and visit;
- the reports: view a book, pending (lent) books, all borrow entries, expected returns and transactions of a day.

Each report returns the records it would print, in place of printing them.

Modules, in dependency order:

| file | module | contents |
|---|---|---|
| `basics.dfy` | `Basics` | `Option` |
| `text.dfy` | `Text` | Python's `str.strip()` with its white-space set, ASCII `lower()`, and `f'{n}'` on naturals (`Decimal`) with its inverse |
| `ordered_dict.dfy` | `OrderedDict` | a Python `dict` as an insertion-ordered association list. Assigning to an existing key keeps its position, assigning to a new key appends, and deleting keeps the order of the rest |
| `library.dfy` | `Library` | entities, id formats, and the seven mutating operations |
| `integrity.dfy` | `Integrity` | `Valid`: the referential-integrity rules, and one preservation lemma per operation |
| `views.dfy` | `Views` | the reports. An unguarded `books[...]`/`logbook[...]` lookup that misses is `KeyError(key)` |
| `session.dfy` | `Session` | a menu session as a sequence of commands, the append-only logbook, and worked scenarios |
| `borrow_keys.dfy` | `BorrowKeys` | how a reused borrow key loses a loan, and a borrow with fresh keys (see Findings) |

The model follows the code as written, including these behaviours:

- **Ids are reused.** New ids are `len(dict) + 1`, so they are not monotonic. After a delete, the next `add_book` can take the id of a surviving book and overwrite it (`Session.AddAfterDeleteReplaces`). `borrow_book` can overwrite a borrow entry the same way, which loses a loan (see Findings).
- **No error results.** The program prints "Book not found." and leaves the state unchanged. It never raises a not-found or unavailable error, so the model has no error results for these cases either.
- **Borrow and return always log.** `borrow_book` and `return_book` add their log entry *before* they look for the book. A failed borrow or return still grows the logbook.
- **Return keeps the loan record.** `return_book` only marks the book `Available`; its borrow entry stays in `borrow_list`.
- **Whitespace is stripped only on delete.** `delete_book` is the only operation that strips whitespace from its inputs and from the stored title and author. Edit, view, borrow and return compare titles exactly.
- **The empty-key guard.** `delete_book` tests `if book_id:`, so a match whose key is the empty string deletes nothing. In the same way, `view_pending` tests `if borrow_key:`, so an entry keyed `""` reads as missing. Both are modelled literally.
- **Confirmation spelling.** `delete_all_books` accepts any capitalisation of `yes` and nothing else (`Text.LowerIsYes`).

The integrity rules (`Integrity.Valid`) hold in the empty state and are preserved by every operation, with no precondition on the operation's inputs:

- unique, non-empty keys;
- logbook keys `L1..Ln` in order;
- every borrow entry names an existing book and a `borrow` log entry;
- every borrower id names a `borrow` log entry;
- every lent book has a borrower.

Under `Valid`, no report stops on a `KeyError` (`Views.ValidViewsNeverFail`).

## Model

| member | source | states |
|---|---|---|
| Text.Strip | library_system.py:184-189 | the result is one slice of the input with only white space before and after it; it starts and ends with a non-space character, and it is empty exactly when the input is all white space |
| Text.StripIgnoresPadding | library_system.py:184-189 | padding a text with white space on either side does not change what `strip()` yields, so `delete_book` finds a book whose stored title or author carries stray blanks |
| Text.StripIdempotent | library_system.py:184-189 | stripping an already stripped text changes nothing |
| Text.LowerIsYes | library_system.py:213-214 | the delete-all confirmation passes exactly for the three-letter answers spelling `yes` in any mix of cases |
| Text.Decimal | library_system.py:167 | the decimal rendering of a number is a non-empty digit string with no leading zero |
| Text.ParseDecimalInverts | library_system.py:167 | reading the decimal rendering back yields the number, so the rendering loses nothing |
| Text.DecimalInjective | library_system.py:344 | different counters give different decimal renderings |
| OrderedDict.FindFirst | library_system.py:187-191 | the result is the first position whose entry satisfies the test, and no earlier entry satisfies it; none means no entry satisfies it |
| OrderedDict.IndexOf | library_system.py:423 | a key is found exactly when it is present, at its first occurrence |
| OrderedDict.Get | library_system.py:423-424 | a lookup succeeds exactly when the key is present; with unique keys it returns the value stored under that key |
| OrderedDict.Put | library_system.py:168 | assignment adds the key to the key set and keeps every other entry; an existing key keeps its position, a new key is appended, and afterwards the key maps to the new value |
| OrderedDict.Filter | library_system.py:196-198 | the kept entries are exactly the entries of the input that pass the test, in their original order, and unique keys stay unique |
| OrderedDict.FilterConcat | library_system.py:196 | filtering two runs of entries one after the other is filtering each run and joining the results, so the comprehension works entry by entry in order |
| OrderedDict.Remove | library_system.py:193 | deletion removes exactly the entries with that key, keeps all others in their original order, and takes the key out of the key set |
| Library.PrefixedIdsDistinct | library_system.py:344 | ids with the same prefix and different counters differ |
| Library.NextLogIdFresh | library_system.py:344 | when the logbook keys are `L1..Ln`, the key `L(n+1)` is not yet used and the keys are unique |
| Library.AddBook | library_system.py:155-176 | the key `B(len+1)` maps to the new available, never-borrowed book; it is appended when fresh and overwrites the book holding it otherwise; every other book, the borrow list and the logbook stay as they were |
| Library.CascadeDelete | library_system.py:192-201 | the book with the given id is removed together with exactly the borrow entries that name it; the other books and the other borrow entries stay, in their original order, and the logbook is unchanged |
| Library.DeleteBook | library_system.py:178-205 | the first book whose stripped title and author match the stripped inputs is removed with its borrow entries, and the remaining books and borrow entries keep their order; if none matches, or the match is keyed by the empty string, nothing changes; the logbook never changes |
| Library.DeleteAllBooks | library_system.py:207-221 | a confirmation spelling `yes` empties books and borrow list and keeps the logbook; any other answer changes nothing |
| Library.EditBook | library_system.py:244-269 | the first book with exactly the given title keeps its id, status and borrowers and takes the new title, author and date; all other books and the other dictionaries stay; no match changes nothing |
| Library.AppendLog | library_system.py:344-350 | a new entry goes under key `L(len+1)`; when the keys are `L1..Ln` it is appended at the end and the keys stay `L1..Ln+1` |
| Library.RecordVisit | library_system.py:463-487 | a visit appends one `visit` log entry with the caller's name, date and time, and changes nothing else |
| Library.LendBook | library_system.py:361-369 | the lent book becomes unavailable with the log id appended to its borrowers, and keeps its key, title, author and date; a borrow entry linking book, log id and return date is stored under the given key, appended when the key is new and replacing that key's entry in place otherwise; all else is kept |
| Library.BorrowBook | library_system.py:329-376 | the `borrow` log entry is appended whether or not a book is found; if the first book matching title and author exactly and available exists, it becomes unavailable with the new log id as its last borrower, keeps its key, title, author and date, and no other book changes; the loan is stored under `BL(len+1)`: appended when that key is free, otherwise replacing the entry with that key, so every borrow entry afterwards is the new loan or the old entry at its position; if no book matches, books and borrow list are unchanged |
| Library.ReturnBook | library_system.py:378-409 | the `return` log entry is appended whether or not a book is found; the first book matching title and author exactly and unavailable becomes available with its borrowers kept; the borrow list never changes |
| Integrity.EmptyValid | library_system.py:104-106 | the empty dictionaries the program starts from satisfy the integrity rules |
| Integrity.AddBookPreservesValid | library_system.py:167-174 | adding a book keeps the integrity rules, including when it overwrites an existing book id |
| Integrity.CascadeDeletePreservesValid | library_system.py:192-198 | removing a book together with the borrow entries naming it keeps the integrity rules |
| Integrity.DeleteBookPreservesValid | library_system.py:178-205 | deleting a book keeps the integrity rules: no borrow entry is left naming it |
| Integrity.DeleteAllBooksPreservesValid | library_system.py:213-218 | clearing books and borrow list keeps the integrity rules |
| Integrity.EditBookPreservesValid | library_system.py:259-265 | editing a book keeps the integrity rules |
| Integrity.RecordVisitPreservesValid | library_system.py:478-486 | logging a visit keeps the integrity rules |
| Integrity.LendBookPreservesValid | library_system.py:361-369 | lending a book under a `borrow` log id and a non-empty borrow key keeps the integrity rules, including when the key overwrites an older entry |
| Integrity.BorrowBookPreservesValid | library_system.py:343-376 | a borrow, successful or not, keeps the integrity rules |
| Integrity.ReturnBookPreservesValid | library_system.py:391-409 | a return, successful or not, keeps the integrity rules |
| Views.JoinEntries | library_system.py:420-431 | the result is a record per entry, in borrow-list order, exactly when every entry's book and log id are present, each record carrying the entry, its book and its borrower's log entry; otherwise the key reported is the book id, or failing that the log id, of the first entry that cannot be resolved |
| Views.ViewAllEntries | library_system.py:411-432 | one record per borrow entry, in order, with its book and borrower, exactly when all lookups succeed; otherwise the missing key of the first unresolvable entry |
| Views.ViewExpectedReturns | library_system.py:434-459 | the records are exactly the borrow entries due back on the date, in borrow-list order, each with its book and borrower; only those entries are looked up, and a failure reports the missing key of a due entry |
| Views.ViewTransactionsPerDay | library_system.py:503-520 | the listed log entries are exactly the log entries of the given date, in logbook order |
| Views.PendingInfo | library_system.py:285-306 | a book with no borrowers, and only such a book, shows no borrower information; otherwise the first borrow entry carrying its last borrower id decides: none, or one keyed by the empty string, shows "Borrower information not found"; one with a key whose log id is not logged raises a `KeyError` on that id, and only then; otherwise the record shows that entry's return date and the logged borrower's name |
| Views.PendingWithKeyedEntries | library_system.py:286-304 | when no borrow entry has an empty key: "Borrower information not found" is shown exactly when no entry records the last loan; a `KeyError` is raised exactly when one does but the log lacks the loan's id; a due record carries the return date of the first entry that records the loan |
| Views.LoanOnRecordShowsDue | library_system.py:286-299 | when no borrow entry has an empty key, a lent book whose last loan has a borrow entry and a log record shows a due record |
| Views.SoleLoanShowsDue | library_system.py:286-299 | a book whose last loan has exactly one borrow entry and a log record shows that entry's return date and the logged borrower |
| Views.ViewPending | library_system.py:271-309 | the records are exactly the unavailable books, in inventory order, each with its pending information, and the report succeeds exactly when each of them resolves; otherwise the key reported is the last borrower id of the first lent book, in inventory order, whose pending information fails |
| Views.BorrowerNames | library_system.py:238-239 | the names are the log entries' person names for the borrower ids, in order, exactly when every id is a log key; otherwise the key reported is the first borrower id that is not in the logbook, where the loop stops |
| Views.ViewBook | library_system.py:224-242 | the first book with exactly the given title is shown with its borrowers' names, and it succeeds exactly when every borrower id is a log key; otherwise the key reported is the first borrower id missing from the logbook; no such book gives "not found" |
| Views.ValidViewsNeverFail | library_system.py:420-424 | under the integrity rules none of the reports raises a missing-key error |
| Views.ValidPendingHasBorrower | library_system.py:285-306 | under the integrity rules every lent book has a last borrower, so "No borrower information available." is never shown |
| Views.BorrowShowsDue | library_system.py:286-299 | after a successful borrow from a valid state, the pending report shows the lent book due on the given return date, with the new borrower as last borrower |
| Views.NewLoanIsSole | library_system.py:361-366 | from a valid state, the borrow entry a successful borrow writes is the only one carrying the new log id |
| Session.StepPreservesValid | library_system.py:551-579 | any single menu operation keeps the integrity rules |
| Session.RunPreservesValid | library_system.py:524-584 | any session of menu operations keeps the integrity rules |
| Session.StepAppendsLog | library_system.py:344-350 | one operation leaves the existing logbook untouched and appends its own log entry, if it logs, under the next `L` key |
| Session.RunAppendsLog | library_system.py:478-486 | over a whole session the logbook only grows at the end: it is the old logbook followed by the session's borrow, return and visit records under keys `L(n+1)`, `L(n+2)`, …; this needs only that the keys start out as `L1..Ln` |
| Session.BorrowThenReturn | library_system.py:402-404 | borrowing and then returning the same book makes it unavailable and then available again, adds the borrow's log id to its borrowers, and leaves the borrow entry in place |
| Session.AddAfterDeleteReplaces | library_system.py:167-168 | adding two books, deleting the first and adding a third gives the third the id `B2` and overwrites the second book |
| BorrowKeys.BorrowOverwritesLoan | library_system.py:361-366 | when `BL(len+1)` is held by the only entry of another lent book's last loan, that book shows a due record before the borrow and "Borrower information not found" after it, while it stays lent |
| BorrowKeys.MissingLoanShows | library_system.py:303-304 | a lent book whose last loan has no borrow entry shows "Borrower information not found" |
| BorrowKeys.SomeBorrowIdFree | library_system.py:361 | of the keys `BL(len+1)` to `BL(2 len+1)` at least one is not in use |
| BorrowKeys.FreshBorrowId | library_system.py:361 | the chosen key is not in use; it is `BL(len+1)` when that is free, and otherwise the first free `BL` key above it |
| BorrowKeys.BorrowBookFresh | library_system.py:329-376 | a borrow that appends the new loan under a fresh key and keeps every earlier borrow entry; it updates books and logbook as the program does, and equals the program's borrow whenever `BL(len+1)` is free |
| BorrowKeys.BorrowBookFreshPreservesValid | library_system.py:343-376 | the fresh-key borrow keeps the integrity rules |
| BorrowKeys.BorrowFreshKeepsOtherLoans | library_system.py:286-304 | with fresh keys, lending one book leaves every other book and what the pending report shows for it unchanged |

## Left out

- Encryption with Fernet and the key file (`library_system.py:20-66`): cryptography is outside the model.
- Saving and loading the stores (`save_data`, `load_data`, `library_system.py:69-116`): file I/O and `eval` are outside the model. The program saves only some dictionaries after each operation. In particular, a failed borrow or return is logged in memory but not saved; that on-disk divergence is not modelled.
- `validate_date` and `validate_time` (`library_system.py:120-150`): they only make the prompt loop until a well-formed date or time is entered. Every operation here takes the accepted value as an argument.
- The menu text, prompts and `print` output (`library_system.py:524-591`): a session is a list of `Session.Command`, and each report returns its records.
- `view_all_books` and `view_all_log_entries` (`library_system.py:311-325`, `489-501`): they print a dictionary unfiltered and contain no logic beyond the iteration.
- Views.ViewExpectedReturns: on a `KeyError` it states that the key belongs to some unresolvable due entry, not that it is the first such entry.
- Views.PendingInfo: the "'Date Return' not found" branch (`library_system.py:301-302`) cannot arise, because every typed borrow entry has a return date.
- A `KeyError` in `view_book`, `view_pending`, `view_all_entries` or `view_expected_returns` is not caught anywhere, since `main` has no handler (`library_system.py:586-591`), so it ends the whole program. Each report stops at its `KeyError` result: the lines it printed before the error and the end of the program are not modelled.
- Text.LowerIsYes: `lower()` is modelled on ASCII letters only. Characters outside ASCII are left as they are, not given their Unicode lower case.
- BorrowKeys: the session model (`Session.Step`) and the integrity lemmas use the program's borrow as written. `BorrowKeys.BorrowBookFresh` stands beside it as the corrected operation and is not wired into the menu loop, so that the session model keeps describing the program itself.

## Findings

| source | as written | input that shows it | evidently intended | confidence | as-written member | corrected member |
|---|---|---|---|---|---|---|
| library_system.py:361-362 | a new loan is keyed `BL(len(borrow_list)+1)`; after `delete_book` has removed borrow entries, that key can still be in use, and the assignment replaces the older entry | add books A, B, C; borrow A (key BL1) and B (key BL2); delete A, which removes BL1; borrow C, whose key is BL2 again: B's loan entry is replaced, B stays Unavailable, and `view_pending` prints "Borrower information not found" for it | each loan gets a key not yet in use, and earlier borrow entries are kept | not executed | BorrowKeys.BorrowOverwritesLoan | BorrowKeys.BorrowFreshKeepsOtherLoans |
