/**
 * The cleanup that follows the deletion of a reader, as value-level
 * specifications: the foreign key's set-null step on `borrower`, and the
 * post-delete sweep that clears `borrowDate` on every book whose borrower is
 * absent. The sweep looks at the whole book table and not at the deleted
 * reader; the lemmas below state both what that achieves and where it
 * reaches beyond the deleted reader's books.
 */
module Signals {
  import opened Wrappers
  import opened Models

  /** The core invariant of a book: a borrower is recorded exactly when a borrow date is. */
  predicate BorrowStateConsistent(b: Book) {
    b.borrower.Some? <==> b.borrowDate.Some?
  }

  predicate AllBorrowStatesConsistent(books: seq<Book>) {
    forall i :: 0 <= i < |books| ==> BorrowStateConsistent(books[i])
  }

  /** The rows the sweep selects: borrower absent, borrow date present. */
  predicate Stale(b: Book) {
    b.borrower.None? && b.borrowDate.Some?
  }

  /** The sweep's update on one row. */
  function ClearIfStale(b: Book): Book {
    if Stale(b) then b.(borrowDate := None) else b
  }

  /** The whole sweep over the book table. */
  function Sweep(books: seq<Book>): (swept: seq<Book>)
    ensures |swept| == |books|
    ensures forall i :: 0 <= i < |swept| ==> !Stale(swept[i])
    ensures forall i :: 0 <= i < |swept| ==> Stale(books[i]) ==> swept[i].borrowDate.None?
    ensures forall i :: 0 <= i < |swept| && !Stale(books[i]) ==> swept[i] == books[i]
    ensures forall i :: 0 <= i < |swept| ==> swept[i] == books[i].(borrowDate := swept[i].borrowDate)
  {
    seq(|books|, i requires 0 <= i < |books| => ClearIfStale(books[i]))
  }

  /** The set-null step of the borrower foreign key on one row. */
  function UnlinkBorrower(b: Book, serial: string): Book {
    if b.borrower == Some(serial) then b.(borrower := None) else b
  }

  /** The set-null step over the book table, for the deleted reader's serial. */
  function SetNullBorrower(books: seq<Book>, serial: string): (unlinked: seq<Book>)
    ensures |unlinked| == |books|
    ensures forall i :: 0 <= i < |unlinked| ==> unlinked[i].borrower != Some(serial)
    ensures forall i :: 0 <= i < |unlinked| && books[i].borrower == Some(serial) ==>
              unlinked[i] == books[i].(borrower := None)
    ensures forall i :: 0 <= i < |unlinked| ==> books[i].borrower != Some(serial) ==> unlinked[i] == books[i]
    ensures forall i :: 0 <= i < |unlinked| ==> unlinked[i] == books[i].(borrower := unlinked[i].borrower)
  {
    seq(|books|, i requires 0 <= i < |books| => UnlinkBorrower(books[i], serial))
  }

  /** The book table after a reader is deleted: set-null, then the sweep. */
  function AfterReaderDelete(books: seq<Book>, serial: string): seq<Book> {
    Sweep(SetNullBorrower(books, serial))
  }

  /** Running the sweep twice is the same as running it once. */
  lemma SweepIdempotent(books: seq<Book>)
    ensures Sweep(Sweep(books)) == Sweep(books)
  {
  }

  /** The sweep changes no book's serial number, so the book table's key stays unique. */
  lemma SweepKeepsBookSerialsUnique(books: seq<Book>)
    requires BookSerialsUnique(books)
    ensures BookSerialsUnique(Sweep(books))
  {
  }

  /** A book borrowed by the deleted reader survives with both borrower and borrow date cleared. */
  lemma BorrowedBookBecomesAvailable(books: seq<Book>, serial: string, i: nat)
    requires i < |books| && books[i].borrower == Some(serial)
    ensures |AfterReaderDelete(books, serial)| == |books|
    ensures AfterReaderDelete(books, serial)[i]
            == books[i].(borrower := None, borrowDate := None)
  {
  }

  /** The invariant "borrower present iff borrow date present" survives reader deletion. */
  lemma ReaderDeletePreservesBorrowState(books: seq<Book>, serial: string)
    requires AllBorrowStatesConsistent(books)
    ensures AllBorrowStatesConsistent(AfterReaderDelete(books, serial))
  {
  }

  /**
   * The cleanup its documentation describes: only the deleted reader's
   * previously borrowed books lose their borrower and borrow date.
   */
  function ReturnBooksOf(books: seq<Book>, serial: string): (returned: seq<Book>)
    ensures |returned| == |books|
  {
    seq(|books|, i requires 0 <= i < |books| =>
      if books[i].borrower == Some(serial)
      then books[i].(borrower := None, borrowDate := None)
      else books[i])
  }

  /** When the invariant held, the store-wide sweep does exactly the per-reader cleanup. */
  lemma SweepMatchesReturnBooksOf(books: seq<Book>, serial: string)
    requires AllBorrowStatesConsistent(books)
    ensures AfterReaderDelete(books, serial) == ReturnBooksOf(books, serial)
  {
  }

  /**
   * The sweep ignores which reader was deleted: a book left with a borrow date
   * but no borrower by any other path is cleared as well, so without the
   * invariant the two cleanups differ.
   */
  lemma SweepReachesUnrelatedBooks()
    ensures var books := [Book("111222", "Title", "Author", None, Some(7))];
            AfterReaderDelete(books, "123456")[0].borrowDate == None
            && ReturnBooksOf(books, "123456")[0].borrowDate == Some(7)
  {
  }
}
