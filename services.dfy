/**
 * The reader and book tables as one mutable store, with the operations that
 * change them: creating a reader (clean, then save), bulk insertion, the raw
 * book insert, and deleting a reader, which runs the foreign key's set-null
 * update, removes the row and then the post-delete cleanup handler.
 */
module Services {
  import opened Wrappers
  import opened Validators
  import opened Models
  import opened Signals

  class Store {
    var readers: seq<Reader>
    var books: seq<Book>

    /** Every book's borrower refers to a stored reader. */
    ghost predicate BorrowersExist()
      reads this
    {
      forall i :: 0 <= i < |books| && books[i].borrower.Some? ==>
        SerialTaken(readers, books[i].borrower.value)
    }

    /** The constraints the database enforces: unique keys and the foreign key. */
    ghost predicate Valid()
      reads this
    {
      SerialsUnique(readers) && BookSerialsUnique(books) && BorrowersExist()
    }

    constructor ()
      ensures Valid()
      ensures readers == [] && books == []
    {
      readers := [];
      books := [];
    }

    /**
     * Builds a reader, runs full cleaning against the stored readers and saves
     * it only if cleaning reported nothing; on failure the store is unchanged.
     */
    method CreateReader(serialNumber: string) returns (result: Result<Reader, seq<ErrorCode>>)
      requires Valid()
      modifies this
      ensures Valid()
      ensures books == old(books)
      ensures result.Success? <==>
                IsSixDigits(serialNumber) && !SerialTaken(old(readers), serialNumber)
      ensures result.Success? ==>
                result.value.serialNumber == serialNumber
                && readers == old(readers) + [result.value]
      ensures result.Failure? ==>
                readers == old(readers)
                && result.error == FullClean(Reader(serialNumber), old(readers))
    {
      var reader := Reader(serialNumber);
      var errors := FullClean(reader, readers);
      if errors != [] {
        return Failure(errors);
      }
      AppendKeepsSerialsUnique(readers, reader);
      readers := readers + [reader];
      result := Success(reader);
    }

    /**
     * Inserts a batch of readers in one statement, without model cleaning:
     * only the database's uniqueness constraint is checked, and a violation
     * inserts nothing.
     */
    method BulkCreate(batch: seq<Reader>) returns (ok: bool)
      requires Valid()
      modifies this
      ensures Valid()
      ensures books == old(books)
      ensures ok <==> SerialsUnique(old(readers) + batch)
      ensures readers == if ok then old(readers) + batch else old(readers)
    {
      ok := SerialsUnique(readers + batch);
      if ok {
        assert BorrowersExist() by {
          forall i | 0 <= i < |books| && books[i].borrower.Some?
            ensures SerialTaken(readers + batch, books[i].borrower.value)
          {
            var r :| r in readers && r.serialNumber == books[i].borrower.value;
            assert r in readers + batch;
          }
        }
        readers := readers + batch;
      }
    }

    /**
     * Inserts one book row as the object manager's create does: the book
     * table's key must be unused and a borrower must be a stored reader;
     * otherwise nothing is inserted.
     */
    method InsertBook(book: Book) returns (ok: bool)
      requires Valid()
      modifies this
      ensures Valid()
      ensures readers == old(readers)
      ensures ok <==> (forall b <- old(books) :: b.serialNumber != book.serialNumber)
                      && (book.borrower.Some? ==> SerialTaken(old(readers), book.borrower.value))
      ensures books == if ok then old(books) + [book] else old(books)
    {
      ok := (forall b <- books :: b.serialNumber != book.serialNumber)
            && (book.borrower.Some? ==> SerialTaken(readers, book.borrower.value));
      if ok {
        var all := books + [book];
        assert BookSerialsUnique(all) by {
          forall i, j | 0 <= i < j < |all| ensures all[i].serialNumber != all[j].serialNumber {
            if j == |books| { assert all[i] in books; }
          }
        }
        books := all;
      }
    }

    /** The set-null update of the borrower foreign key, one book row at a time. */
    method SetNullBorrowers(serial: string)
      modifies this`books
      ensures books == SetNullBorrower(old(books), serial)
    {
      var i := 0;
      while i < |books|
        invariant 0 <= i <= |books| == |old(books)|
        invariant forall k :: 0 <= k < i ==> books[k] == UnlinkBorrower(old(books)[k], serial)
        invariant forall k :: i <= k < |books| ==> books[k] == old(books)[k]
      {
        if books[i].borrower == Some(serial) {
          books := books[i := books[i].(borrower := None)];
        }
        i := i + 1;
      }
    }

    /**
     * The post-delete handler: clears the borrow date of every book whose
     * borrower is absent. The deleted reader is passed in and not used.
     */
    method ClearBorrowDateOnReaderDelete(instance: Reader)
      modifies this`books
      ensures books == Sweep(old(books))
    {
      var i := 0;
      while i < |books|
        invariant 0 <= i <= |books| == |old(books)|
        invariant forall k :: 0 <= k < i ==> books[k] == ClearIfStale(old(books)[k])
        invariant forall k :: i <= k < |books| ==> books[k] == old(books)[k]
      {
        if books[i].borrower.None? && books[i].borrowDate.Some? {
          books := books[i := books[i].(borrowDate := None)];
        }
        i := i + 1;
      }
    }

    /**
     * Deletes the reader with the given serial number: the borrower of each of
     * its books is set to null, the reader row is removed, and then the
     * post-delete handler runs. Returns whether a reader row was removed.
     */
    method DeleteReader(serialNumber: string) returns (deleted: bool)
      requires Valid()
      modifies this
      ensures Valid()
      ensures deleted <==> SerialTaken(old(readers), serialNumber)
      ensures readers == RemoveSerial(old(readers), serialNumber)
      ensures |readers| == if deleted then |old(readers)| - 1 else |old(readers)|
      ensures books == AfterReaderDelete(old(books), serialNumber)
      ensures AllBorrowStatesConsistent(old(books)) ==> AllBorrowStatesConsistent(books)
    {
      ghost var before := books;
      SetNullBorrowers(serialNumber);
      UniqueSerialCountedOnce(readers, serialNumber);
      RemoveSerialKeepsUnique(readers, serialNumber);
      deleted := SerialTaken(readers, serialNumber);
      readers := RemoveSerial(readers, serialNumber);
      ClearBorrowDateOnReaderDelete(Reader(serialNumber));
      if AllBorrowStatesConsistent(before) {
        ReaderDeletePreservesBorrowState(before, serialNumber);
      }
      assert BookSerialsUnique(books) by {
        forall i, j | 0 <= i < j < |books| ensures books[i].serialNumber != books[j].serialNumber {
          assert books[i].serialNumber == before[i].serialNumber;
          assert books[j].serialNumber == before[j].serialNumber;
        }
      }
    }
  }
}
