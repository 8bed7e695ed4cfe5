# Library reader records and reader-deletion cleanup, in Dafny

This project models the core of a small library record keeper built on a
relational store: readers identified by a six-digit serial number, books that
record which reader borrowed them and when, and the cleanup that runs when a
reader is deleted.

- `validators.dfy` (module `Validators`): the serial-number validator, a
  regular expression `^\d{6}$` with the message "Serial number must be exactly
  6 digits." and the code `invalid_serial_number`. The pattern is modelled as a
  matcher (`MatchDigitsThenEnd`) and proved equal to a plain description of
  what it accepts.
- `models.dfy` (module `Models`): the `Reader` record and its string form; the
  field constraints on the serial number (at most 6 characters, the validator,
  unique), checked by `FieldErrors` and `FullClean` in the order model
  cleaning runs them; the readers-table operations the tests use (count by
  serial, removal, prefix filter); and a minimal `Book` record.
- `signals.dfy` (module `Signals`): the foreign key's set-null step on a
  book's borrower and the post-delete sweep, as functions on the book table,
  with the lemmas about them.
- `services.dfy` (module `Services`): class `Store` holding the reader and
  book tables as sequences that its methods reassign. `CreateReader` cleans and
  then saves; `DeleteReader` runs the set-null update, removes the reader row
  and then calls the cleanup handler `ClearBorrowDateOnReaderDelete`
  explicitly. `Valid()` is what the database enforces: unique reader serials,
  unique book serials, and every borrower referring to a stored reader.
- `scenarios.dfy` (module `Scenarios`): the repository's test scenarios restated
  as client methods that use only the store's contracts.

Modelling decisions:

- A digit is an ASCII character '0'..'9'. Python's `$` is modelled as written:
  it also matches just before a final newline, so the validator on its own
  accepts "123456\n"; only `max_length` rejects it. The `max_length` of 6 rejects that value, so full
  cleaning accepts exactly the six-digit strings (`FieldErrors`, `FullClean`).
- Model cleaning follows the framework's order: an empty value is reported as
  blank and the validators do not run on it; otherwise the validator's error
  and the length error are both collected; the uniqueness check runs only
  when the field has no error. An empty value is reported as `blank`, not as
  an invalid serial; it is rejected and nothing is stored.
- The cleanup sweep clears the borrow date of every book whose borrower is
  absent, whichever reader was deleted. This is modelled as written. When
  every book satisfied "borrower present iff borrow date present" before the
  deletion, the sweep does exactly what the handler's documentation describes,
  clearing only the deleted reader's books (`SweepMatchesReturnBooksOf`).
  Otherwise it also clears unrelated books (`SweepReachesUnrelatedBooks`).
- Readers are identified by serial number. Deleting a reader that is not
  stored removes no row, but the post-delete handler still runs, as it does
  for a model instance whose row is already gone.

## Model

| member | source | states |
|---|---|---|
| `Validators.MatchDigitsThenEndMeaning` | library/api/validators.py:4 | the pattern `^\d{6}$` (n digits, then Python's `$`) matches exactly n ASCII digits, optionally followed by one newline |
| `Validators.SixNumberDigitsValidator` | library/api/validators.py:3-7 | the validator passes exactly on six digits, or six digits then a newline; every rejection carries code `invalid_serial_number` and message "Serial number must be exactly 6 digits."; it is a pure function of its argument |
| `Validators.ValidatorOnShortValues` | library/api/validators.py:4 | on values of at most six characters the validator accepts exactly the strings of six decimal digits |
| `Validators.ValidatorExamples` | tests/api/test_validators.py:7-15 | "123456", "654321", "000000" pass (leading zeros included); "abcdef", "1234567", "12345a", "12345" and "" are rejected; "123456\n" passes the pattern |
| `Models.ToStringRoundTrip` | library/api/models.py:12-13 | a reader's string form is its serial number, and rebuilding a reader from it gives the same reader |
| `Models.FieldErrors` | library/api/models.py:8-10 | the serial field is clean iff it is exactly six ASCII digits; blank is reported iff the value is empty; the length error iff it exceeds 6 characters; the validator error (code `invalid_serial_number`) iff the non-empty value fails the validator; uniqueness is never a field error |
| `Models.FullClean` | library/api/models.py:9 | cleaning a new reader reports nothing iff its serial is six digits and not held by a stored reader; it reports non-uniqueness iff the serial is well formed but taken; a malformed serial gets the field errors only |
| `Models.TrailingNewlineCaughtByMaxLength` | library/api/models.py:9 | "123456\n" passes the validator, and the `max_length` of 6 is what rejects it |
| `Models.AppendKeepsSerialsUnique` | library/api/models.py:9 | appending a reader that passed full cleaning keeps serials unique, and the stored serial has at most 6 characters and satisfies the validator |
| `Models.CountSerial` | tests/api/test_services.py:38 | the count of readers with a serial is at most the table size and is zero iff no reader holds the serial |
| `Models.UniqueSerialCountedOnce` | library/api/models.py:9 | under the uniqueness constraint a serial is held by exactly one reader if it is held at all |
| `Models.RemoveSerial` | tests/api/test_signals.py:33 | deleting a reader keeps exactly the readers with other serials, each as many times as it was stored, and the table shrinks by the number of readers that held the serial |
| `Models.RemoveSerialKeepsUnique` | library/api/models.py:9 | deleting a reader keeps the remaining serials unique |
| `Models.FilterSerialPrefix` | tests/api/test_models.py:23-25 | filtering by prefix returns exactly the stored readers whose serial starts with the prefix, each as many times as it is stored, and no more readers than are stored |
| `Signals.Sweep` | library/api/signals.py:13-15 | after the sweep no book has an absent borrower with a present borrow date; every such book has its date cleared; every other book is unchanged; only `borrowDate` is written and no book is added or removed |
| `Signals.SetNullBorrower` | tests/api/test_signals.py:36-37 | after the set-null step no book refers to the deleted reader: each of its books has borrower absent and is otherwise unchanged; books that did not refer to it are unchanged; only `borrower` is written |
| `Signals.SweepIdempotent` | library/api/signals.py:13-15 | running the sweep twice gives the same book table as running it once |
| `Signals.SweepKeepsBookSerialsUnique` | library/api/signals.py:13-15 | the sweep keeps the book table's serial numbers unique |
| `Signals.BorrowedBookBecomesAvailable` | tests/api/test_signals.py:16-39 | a book borrowed by the deleted reader still exists afterwards, with borrower and borrow date both absent and its other fields unchanged |
| `Signals.ReaderDeletePreservesBorrowState` | library/api/signals.py:9-15 | if every book had a borrower exactly when it had a borrow date before a reader is deleted, that still holds after set-null and the sweep |
| `Signals.SweepMatchesReturnBooksOf` | library/api/signals.py:9-15 | under that invariant, set-null plus the store-wide sweep equals clearing borrower and date on the deleted reader's books only |
| `Signals.SweepReachesUnrelatedBooks` | library/api/signals.py:8-13 | the sweep ignores which reader was deleted: a book with no borrower but a borrow date is cleared even though the deleted reader never borrowed it |
| `Services.Store.CreateReader` | library/api/services.py:4-13 | succeeds iff the serial is six digits and unused; on success returns a reader with that serial and appends it, leaving earlier readers unchanged; on failure returns the cleaning errors and changes nothing; the store's constraints are kept |
| `Services.Store.BulkCreate` | tests/api/test_models.py:16-17 | a batch is inserted whole iff all serials stay unique, otherwise nothing is inserted; books are untouched |
| `Services.Store.InsertBook` | tests/api/test_signals.py:12-26 | a book row is inserted iff its serial is unused and its borrower, if any, is a stored reader; readers are untouched |
| `Services.Store.SetNullBorrowers` | tests/api/test_signals.py:36-37 | the row-by-row update leaves the book table equal to the set-null step for the deleted serial |
| `Services.Store.ClearBorrowDateOnReaderDelete` | library/api/signals.py:7-15 | the row-by-row update leaves the book table equal to the sweep of the old table, independent of the deleted reader passed in |
| `Services.Store.DeleteReader` | tests/api/test_signals.py:32-39 | removes the reader row iff one holds the serial (the table shrinks by one), leaves books equal to set-null followed by the sweep, keeps the store's constraints and preserves the borrow-state invariant |
| `Scenarios.CreateReaderSuccess` | tests/api/test_services.py:9-14 | creating "123456" in an empty store returns that reader and stores it |
| `Scenarios.MalformedSerialsAreNotSixDigits` | tests/api/test_services.py:17-23 | none of "12345", "1234567", "abcdef", "12345a", "" is a six-digit serial |
| `Scenarios.CreateReaderInvalidSerialNumber` | tests/api/test_services.py:16-29 | the five malformed serials are all rejected and the reader count stays 0 |
| `Scenarios.CreateReaderDuplicateSerialNumber` | tests/api/test_services.py:31-38 | a second "123456" is rejected with the uniqueness error and exactly one such reader remains |
| `Scenarios.BulkBatchUnique` | tests/api/test_models.py:14-17 | the four test serials "111111", "222222", "333333", "444444" are distinct, so the bulk insert is accepted |
| `Scenarios.BulkBatchPrefixes` | tests/api/test_models.py:23 | of "111111", "222222", "333333", "444444" only "333333" starts with "3" |
| `Scenarios.BulkBatchFilter` | tests/api/test_models.py:23-25 | of the four test serials only "333333" starts with "3" |
| `Scenarios.BulkCreateAndFilter` | tests/api/test_models.py:11-25 | bulk-inserting the four serials gives a count of 4, and filtering by "3" returns exactly the reader "333333" |
| `Scenarios.SetUpSignalsStore` | tests/api/test_signals.py:9-26 | the raw inserts of reader "123456", an unborrowed book and a book borrowed by that reader all succeed and keep the store's constraints |
| `Scenarios.OnDeleteBehavior` | tests/api/test_signals.py:16-39 | deleting the reader who borrowed book "111222" leaves that book stored with both borrower and borrow date absent |

## Left out

- `Validators.SixNumberDigitsValidator`: a digit is '0'..'9' only; in a Python string pattern `\d` also matches other Unicode decimal digits, which this model does not capture.
- Models.FilterSerialPrefix: the prefix test is case-sensitive, as the framework documents `startswith`; on an SQLite database its `LIKE` ignores the case of ASCII letters, so a stored serial with letters (possible through the uncleaned bulk insert) may match a prefix of the other case there. That database-specific behaviour is not captured.
- Models.FieldErrors: the framework's null-character validator on text fields is not modelled; it only adds a second error to values the six-digit validator already rejects. Error messages other than the validator's are not modelled; errors are identified by code.
- The Book model definition and the book service (creating books, changing borrow status, list, retrieve and delete of books) are not part of this model; `Book` carries only the fields the cleanup reads or must leave alone, and `InsertBook` stands for the object manager's raw insert used by the tests.
- The HTTP layer (views, serializers, URL routing, status codes) is not modelled. Its reader-creation path validates in the serializer and inserts through the model manager, without going through `create_reader` or full cleaning.
- Transactions, isolation and concurrency are not modelled; every operation runs alone, and a failing operation is shown to change nothing.
- Timestamps are opaque integers; the clock is not modelled.
- The framework's signal dispatch is not modelled: `DeleteReader` calls the handler directly after removing the row.
- Deleting a model instance that has no primary key raises an error in the framework; readers here are always identified by serial number, so that case does not arise.
- Settings and test bootstrapping files are configuration only.
