/**
 * Client methods restating the repository's test scenarios on top of the
 * store's contracts alone: each starts from an empty store and states the outcome the
 * corresponding test asserts.
 */
module Scenarios {
  import opened Wrappers
  import opened Validators
  import opened Models
  import opened Signals
  import opened Services

  /** A fresh six-digit serial is accepted and stored. */
  method CreateReaderSuccess() returns (result: Result<Reader, seq<ErrorCode>>, stored: bool)
    ensures result == Success(Reader("123456"))
    ensures stored
  {
    var store := new Store();
    ValidatorExamples();
    result := store.CreateReader("123456");
    stored := SerialTaken(store.readers, "123456");
    assert store.readers[0].serialNumber == "123456";
  }

  /** The malformed serials of the service tests: short, long, letters, one letter, empty. */
  const MalformedSerials := ["12345", "1234567", "abcdef", "12345a", ""]

  /** None of the malformed serials is six digits. */
  lemma MalformedSerialsAreNotSixDigits()
    ensures forall k :: 0 <= k < |MalformedSerials| ==> !IsSixDigits(MalformedSerials[k])
  {
    assert !IsDigit(MalformedSerials[2][0]);
    assert !IsDigit(MalformedSerials[3][5]);
  }

  /** Malformed serials are all rejected and nothing is stored. */
  method CreateReaderInvalidSerialNumber() returns (rejected: nat, count: nat)
    ensures rejected == |MalformedSerials|
    ensures count == 0
  {
    var store := new Store();
    MalformedSerialsAreNotSixDigits();
    rejected := 0;
    var i := 0;
    while i < |MalformedSerials|
      invariant 0 <= i <= |MalformedSerials|
      invariant rejected == i
      invariant store.Valid() && store.readers == []
    {
      var result := store.CreateReader(MalformedSerials[i]);
      if result.Failure? {
        rejected := rejected + 1;
      }
      i := i + 1;
    }
    count := |store.readers|;
  }

  /** A second reader with the same serial is rejected; exactly one remains. */
  method CreateReaderDuplicateSerialNumber() returns (second: Result<Reader, seq<ErrorCode>>, count: nat)
    ensures second.Failure? && second.error == [NotUnique]
    ensures count == 1
  {
    var store := new Store();
    ValidatorExamples();
    var first := store.CreateReader("123456");
    assert SerialTaken(store.readers, "123456") by {
      assert store.readers[0].serialNumber == "123456";
    }
    second := store.CreateReader("123456");
    UniqueSerialCountedOnce(store.readers, "123456");
    count := CountSerial(store.readers, "123456");
  }

  /** The four serials of the bulk-insertion test. */
  function BulkBatch(): seq<Reader> {
    [Reader("111111"), Reader("222222"), Reader("333333"), Reader("444444")]
  }

  /** The batch's serials are distinct. */
  lemma BulkBatchUnique()
    ensures SerialsUnique(BulkBatch())
  {
  }

  /** Which of the batch's serials start with "3". */
  lemma BulkBatchPrefixes()
    ensures !HasPrefix("111111", "3") && !HasPrefix("222222", "3")
    ensures HasPrefix("333333", "3") && !HasPrefix("444444", "3")
  {
    assert "111111"[..1][0] != '3' && "222222"[..1][0] != '3';
    assert "444444"[..1][0] != '3' && "333333"[..1] == "3";
  }

  /** Of the batch, only "333333" starts with "3". */
  lemma BulkBatchFilter()
    ensures FilterSerialPrefix(BulkBatch(), "3") == [Reader("333333")]
  {
    var a, b, c, d := Reader("111111"), Reader("222222"), Reader("333333"), Reader("444444");
    BulkBatchPrefixes();
    FilterSerialPrefixCons(d, [], "3");
    FilterSerialPrefixCons(c, [d], "3");
    FilterSerialPrefixCons(b, [c] + [d], "3");
    FilterSerialPrefixCons(a, [b] + ([c] + [d]), "3");
    assert [d] + [] == [d];
    assert BulkBatch() == [a] + ([b] + ([c] + [d]));
  }

  /** Four distinct serials inserted in bulk; filtering by the prefix "3" finds one. */
  method BulkCreateAndFilter() returns (count: nat, filtered: seq<Reader>)
    ensures count == 4
    ensures filtered == [Reader("333333")]
  {
    var store := new Store();
    var batch := BulkBatch();
    BulkBatchUnique();
    assert [] + batch == batch;
    var ok := store.BulkCreate(batch);
    assert store.readers == batch;
    count := |store.readers|;
    filtered := FilterSerialPrefix(store.readers, "3");
    BulkBatchFilter();
  }

  const SignalsReader := Reader("123456")
  const UnborrowedBook := Book("987654", "Test Book", "Test Author", None, None)
  const BorrowedBook :=
    Book("111222", "On Delete Test Book", "Test Author", Some("123456"), Some(1700000000))

  /** A store with one reader and two books, the second borrowed by that reader. */
  method SetUpSignalsStore() returns (store: Store)
    ensures fresh(store) && store.Valid()
    ensures store.readers == [SignalsReader]
    ensures store.books == [UnborrowedBook, BorrowedBook]
  {
    store := new Store();
    assert SerialsUnique([] + [SignalsReader]);
    // A one-row bulk insert stands for the single uncleaned create of the reader.
    var okReader := store.BulkCreate([SignalsReader]);
    assert SerialTaken(store.readers, "123456") by {
      assert store.readers[0] == SignalsReader;
    }
    var okFirst := store.InsertBook(UnborrowedBook);
    assert UnborrowedBook.serialNumber[0] != BorrowedBook.serialNumber[0];
    var okSecond := store.InsertBook(BorrowedBook);
  }

  /**
   * Deleting a reader who borrowed a book leaves the book in the table with
   * both its borrower and its borrow date cleared.
   */
  method OnDeleteBehavior() returns (book: Book, stillThere: bool)
    ensures book == BorrowedBook.(borrower := None, borrowDate := None)
    ensures stillThere
  {
    var store := SetUpSignalsStore();
    var deleted := store.DeleteReader("123456");
    BorrowedBookBecomesAvailable([UnborrowedBook, BorrowedBook], "123456", 1);
    book := store.books[1];
    stillThere := exists b <- store.books :: b.serialNumber == "111222";
    assert store.books[1] in store.books;
  }
}
