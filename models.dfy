/**
 * The Reader record with its field constraints (at most six characters, the
 * six-digit validator, unique across readers), the model-level cleaning that
 * checks them, and the minimal Book record the reader-deletion cleanup works on.
 */
module Models {
  import opened Wrappers
  import opened Validators

  /** The `max_length` of the serial-number field. */
  const MaxLength: nat := 6

  datatype Reader = Reader(serialNumber: string)

  /** The string form of a reader. */
  function ToString(r: Reader): string {
    r.serialNumber
  }

  /** The string form is the serial number, and it identifies the reader. */
  lemma ToStringRoundTrip(r: Reader, s: string)
    ensures Reader(ToString(r)) == r
    ensures ToString(Reader(s)) == s
  {
  }

  /**
   * A book row, reduced to the fields that the cleanup reads or writes and
   * that it must leave alone. `borrower` is the serial number of the
   * referenced reader; `borrowDate` is an opaque timestamp.
   */
  datatype Book = Book(serialNumber: string, title: string, author: string,
                       borrower: Option<string>, borrowDate: Option<int>)

  /** The errors model cleaning can report for the serial-number field, by Django code. */
  datatype ErrorCode = Blank | InvalidSerialNumber | MaxLengthExceeded | NotUnique {
    function Code(): string {
      match this
      case Blank => "blank"
      case InvalidSerialNumber => InvalidSerialCode
      case MaxLengthExceeded => "max_length"
      case NotUnique => "unique"
    }
  }

  predicate SerialTaken(readers: seq<Reader>, serial: string) {
    exists r <- readers :: r.serialNumber == serial
  }

  /** The uniqueness constraint of the serial-number field. */
  predicate SerialsUnique(readers: seq<Reader>) {
    forall i, j :: 0 <= i < j < |readers| ==> readers[i].serialNumber != readers[j].serialNumber
  }

  predicate BookSerialsUnique(books: seq<Book>) {
    forall i, j :: 0 <= i < j < |books| ==> books[i].serialNumber != books[j].serialNumber
  }

  /**
   * Field cleaning of the serial number: an empty value is reported blank and
   * no validator runs on it; otherwise the six-digit validator and the
   * length limit each add their error.
   */
  function FieldErrors(serial: string): (errs: seq<ErrorCode>)
    ensures errs == [] <==> IsSixDigits(serial)
    ensures Blank in errs <==> serial == ""
    ensures MaxLengthExceeded in errs <==> |serial| > MaxLength
    ensures InvalidSerialNumber in errs <==>
              serial != "" && SixNumberDigitsValidator(serial).Fail?
    ensures InvalidSerialNumber in errs ==>
              SixNumberDigitsValidator(serial).error.code == InvalidSerialNumber.Code()
    ensures NotUnique !in errs
  {
    if serial == "" then [Blank]
    else
      (if SixNumberDigitsValidator(serial).Fail? then [InvalidSerialNumber] else [])
      + (if |serial| > MaxLength then [MaxLengthExceeded] else [])
  }

  /**
   * Full cleaning of a new reader against the readers already stored: field
   * errors first; the uniqueness check runs only when the field is clean.
   */
  function FullClean(candidate: Reader, existing: seq<Reader>): (errs: seq<ErrorCode>)
    ensures errs == [] <==>
              IsSixDigits(candidate.serialNumber) && !SerialTaken(existing, candidate.serialNumber)
    ensures NotUnique in errs <==>
              IsSixDigits(candidate.serialNumber) && SerialTaken(existing, candidate.serialNumber)
    ensures !IsSixDigits(candidate.serialNumber) ==> errs == FieldErrors(candidate.serialNumber)
  {
    var fieldErrors := FieldErrors(candidate.serialNumber);
    if fieldErrors != [] then fieldErrors
    else if SerialTaken(existing, candidate.serialNumber) then [NotUnique]
    else []
  }

  /** A value that passes the validator but not the length limit. */
  lemma TrailingNewlineCaughtByMaxLength()
    ensures SixNumberDigitsValidator("123456\n").Pass?
    ensures FieldErrors("123456\n") == [MaxLengthExceeded]
  {
  }

  /** A reader that passes full cleaning keeps serials unique when appended. */
  lemma {:induction false} AppendKeepsSerialsUnique(readers: seq<Reader>, r: Reader)
    requires SerialsUnique(readers)
    requires FullClean(r, readers) == []
    ensures SerialsUnique(readers + [r])
    ensures |r.serialNumber| <= MaxLength && SixNumberDigitsValidator(r.serialNumber).Pass?
  {
  }

  /** The number of stored readers with the given serial number. */
  function CountSerial(readers: seq<Reader>, serial: string): (n: nat)
    ensures n <= |readers|
    ensures n == 0 <==> !SerialTaken(readers, serial)
  {
    if readers == [] then 0
    else
      assert readers == [readers[0]] + readers[1..];
      (if readers[0].serialNumber == serial then 1 else 0) + CountSerial(readers[1..], serial)
  }

  /** The rest of a table with unique serials is unique and avoids the first serial. */
  lemma TailSerialsUnique(readers: seq<Reader>)
    requires SerialsUnique(readers) && readers != []
    ensures SerialsUnique(readers[1..])
    ensures forall r <- readers[1..] :: r.serialNumber != readers[0].serialNumber
  {
  }

  /** A reader whose serial is not in a unique table can be put in front of it. */
  lemma ConsSerialsUnique(head: Reader, rest: seq<Reader>)
    requires SerialsUnique(rest)
    requires forall r <- rest :: r.serialNumber != head.serialNumber
    ensures SerialsUnique([head] + rest)
  {
  }

  /** Under the uniqueness constraint a serial is held by at most one reader. */
  lemma {:induction false} UniqueSerialCountedOnce(readers: seq<Reader>, serial: string)
    requires SerialsUnique(readers)
    ensures CountSerial(readers, serial) == if SerialTaken(readers, serial) then 1 else 0
  {
    if readers != [] {
      TailSerialsUnique(readers);
      UniqueSerialCountedOnce(readers[1..], serial);
    }
  }

  /** The readers left after deleting the one with the given serial number, in order. */
  function RemoveSerial(readers: seq<Reader>, serial: string): (rest: seq<Reader>)
    ensures forall r :: r in rest <==> r in readers && r.serialNumber != serial
    ensures forall r {:trigger multiset(rest)[r]} :: multiset(rest)[r] ==
              if r.serialNumber != serial then multiset(readers)[r] else 0
    ensures |rest| + CountSerial(readers, serial) == |readers|
  {
    if readers == [] then []
    else
      assert readers == [readers[0]] + readers[1..];
      (if readers[0].serialNumber == serial then [] else [readers[0]])
      + RemoveSerial(readers[1..], serial)
  }

  /** Deleting a reader keeps the remaining serials unique. */
  lemma {:induction false} RemoveSerialKeepsUnique(readers: seq<Reader>, serial: string)
    requires SerialsUnique(readers)
    ensures SerialsUnique(RemoveSerial(readers, serial))
  {
    if readers != [] {
      var tail := readers[1..];
      TailSerialsUnique(readers);
      RemoveSerialKeepsUnique(tail, serial);
      var rest := RemoveSerial(tail, serial);
      if readers[0].serialNumber != serial {
        assert RemoveSerial(readers, serial) == [readers[0]] + rest;
        ConsSerialsUnique(readers[0], rest);
      }
    }
  }

  /** One step of the prefix filter: the head is kept iff its serial has the prefix. */
  lemma FilterSerialPrefixCons(r: Reader, rest: seq<Reader>, prefix: string)
    ensures FilterSerialPrefix([r] + rest, prefix)
            == (if HasPrefix(r.serialNumber, prefix) then [r] else []) + FilterSerialPrefix(rest, prefix)
  {
  }

  predicate HasPrefix(s: string, prefix: string) {
    |prefix| <= |s| && s[..|prefix|] == prefix
  }

  /** The readers whose serial number starts with the given prefix, in stored order. */
  function FilterSerialPrefix(readers: seq<Reader>, prefix: string): (found: seq<Reader>)
    ensures forall r :: r in found <==> r in readers && HasPrefix(r.serialNumber, prefix)
    ensures forall r {:trigger multiset(found)[r]} :: multiset(found)[r] ==
              if HasPrefix(r.serialNumber, prefix) then multiset(readers)[r] else 0
    ensures |found| <= |readers|
  {
    if readers == [] then []
    else
      assert readers == [readers[0]] + readers[1..];
      (if HasPrefix(readers[0].serialNumber, prefix) then [readers[0]] else [])
      + FilterSerialPrefix(readers[1..], prefix)
  }
}
